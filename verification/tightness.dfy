/** Where the ceiling is exact: key trees, and graphs about which only row counts are known. */
module Tightness {
  import opened Machine
  import opened Counting
  import opened Degree
  import opened Instances
  import opened JoinCounting
  import opened UnionFind
  import opened Saturation
  import opened SpanningTree
  import opened Ceiling
  import opened ProductComparison

  // Key trees: every relation but the root is joined to an earlier one on a key.

  /** One attachment of a tree: `child` hangs under `parent` on `attribute`. */
  datatype Branch = Branch(parent: nat, child: nat, attribute: AttributeId)

  ghost function Listing(root: nat, tree: seq<Branch>): seq<nat> {
    [root] + seq(|tree|, k requires 0 <= k < |tree| => tree[k].child)
  }

  /** No two rows of the relation share a value of the attribute, as far as its statistics say. */
  ghost predicate IsKey(relation: JoinRelation, attribute: AttributeId) {
    if attribute in relation.degrees then relation.degrees[attribute].maxDegree <= 1 else relation.rows <= 1
  }

  /** The tree reaches every relation once, each over an edge on which it has degree at most 1. */
  ghost predicate ReachesByKeys(g: JoinGraph, root: nat, tree: seq<Branch>) {
    && Distinct(Listing(root, tree))
    && (forall v: nat :: v in Listing(root, tree) <==> v < g.Size())
    && (forall k | 0 <= k < |tree| :: IsKeyBranch(g, root, tree, k))
  }

  /** Branch k hangs a new relation under one listed before it. */
  ghost predicate IsKeyBranch(g: JoinGraph, root: nat, tree: seq<Branch>, k: nat)
    requires k < |tree|
  {
    && tree[k].parent in Listing(root, tree[..k])
    && tree[k].child < g.Size()
    && Linked(g, tree[k].parent, tree[k].child, tree[k].attribute)
    && IsKey(g.relations[tree[k].child], tree[k].attribute)
  }

  /** The tree's branches are all the edges there are. */
  ghost predicate HasOnlyBranches(g: JoinGraph, tree: seq<Branch>) {
    forall e | e in g.edges ::
      Branch(e.left, e.right, e.attribute) in tree || Branch(e.right, e.left, e.attribute) in tree
  }

  /** Every row of a parent finds exactly one partner in the child. */
  ghost predicate MatchesOnce(db: Database, tree: seq<Branch>) {
    forall k | 0 <= k < |tree| ::
      var b := tree[k];
      b.parent < |db| && b.child < |db| &&
      forall r: nat | r < |db[b.parent]| :: |Partners(db, b, r)| == 1
  }

  ghost function Partners(db: Database, b: Branch, r: nat): set<nat>
    requires b.child < |db|
  {
    set s | s in Below(|db[b.child]|) && RowsAgree(db, b.attribute, b.parent, r, b.child, s)
  }

  lemma ListingGrows(root: nat, tree: seq<Branch>, k: nat)
    requires k < |tree|
    ensures Listing(root, tree[..k + 1]) == Listing(root, tree[..k]) + [tree[k].child]
    ensures Listing(root, tree)[..k + 1] == Listing(root, tree[..k])
    ensures Listing(root, tree)[k + 1] == tree[k].child
  {
  }

  /** While relations are missing, the first missing one of the listing can be attached at factor 1. */
  lemma {:induction false} KeyStep(g: JoinGraph, root: nat, tree: seq<Branch>, component: seq<nat>, visited: seq<nat>, k: nat)
    requires g.Valid() && ReachesByKeys(g, root, tree) && k <= |tree|
    requires forall v: nat | v < g.Size() :: v in component
    requires forall v | v in Listing(root, tree[..k]) :: v in visited
    requires exists v: nat :: v < g.Size() && v !in visited
    ensures Cheapest(g, component, visited).Some?
    ensures Cheapest(g, component, visited).value.1 <= 1
    decreases |tree| - k
  {
    assert tree[..|tree|] == tree;
    if k == |tree| {
      assert false;
    } else {
      ListingGrows(root, tree, k);
      assert IsKeyBranch(g, root, tree, k);
      var b := tree[k];
      if b.child in visited {
        KeyStep(g, root, tree, component, visited, k + 1);
      } else {
        CheapestIsMinimal(g, component, visited);
        assert Crosses(g, component, visited, b.parent, b.child, b.attribute);
        assert Costs(g.relations[b.child], b.attribute, g.relations[b.child].Degree(b.attribute).maxDegree);
      }
    }
  }

  lemma {:induction false} KeyTreeGrow(g: JoinGraph, root: nat, tree: seq<Branch>, component: seq<nat>,
                                       visited: seq<nat>, bound: u128)
    requires g.Valid() && ReachesByKeys(g, root, tree) && bound <= U64_MAX
    requires forall v: nat | v < g.Size() :: v in component
    requires Growing(g, component, visited) && root in visited
    ensures Grow(g, component, visited, bound) <= bound
    decreases |component| - |visited|
  {
    VisitedFits(g, component, visited);
    if |visited| < |component| {
      assert exists v: nat :: v < g.Size() && v !in visited by {
        if forall v: nat | v < g.Size() :: v in visited {
          assert Elements(component) <= Elements(visited);
          DistinctCount(component);
          DistinctCount(visited);
          SubsetCount(Elements(component), Elements(visited));
          assert false;
        }
      }
      assert Listing(root, tree[..0]) == [root];
      KeyStep(g, root, tree, component, visited, 0);
      var (next, factor) := Cheapest(g, component, visited).value;
      CheapestIsMinimal(g, component, visited);
      WideProductIsExact(bound, factor);
      MulMonotone(bound, factor, bound, 1);
      AttachKeepsGrowing(g, component, visited, next);
      if bound * factor < U64_MAX {
        KeyTreeGrow(g, root, tree, component, visited + [next], bound * factor);
      }
    }
  }

  lemma {:induction false} TreeIsConnected(g: JoinGraph, root: nat, tree: seq<Branch>, k: nat)
    requires g.Valid() && ReachesByKeys(g, root, tree) && k <= |tree|
    ensures forall v | v in Listing(root, tree[..k]) :: Connected(g.edges, root, v)
  {
    if k == 0 {
      assert Listing(root, tree[..0]) == [root];
      ConnectedReflexive(g.edges, root);
    } else {
      TreeIsConnected(g, root, tree, k - 1);
      ListingGrows(root, tree, k - 1);
      assert IsKeyBranch(g, root, tree, k - 1);
      ConnectOneMore(g, root, Listing(root, tree[..k - 1]), tree[k - 1]);
    }
  }

  lemma ConnectOneMore(g: JoinGraph, root: nat, listed: seq<nat>, b: Branch)
    requires forall v | v in listed :: Connected(g.edges, root, v)
    requires b.parent in listed && Linked(g, b.parent, b.child, b.attribute)
    ensures forall v | v in listed + [b.child] :: Connected(g.edges, root, v)
  {
    LinkedConnected(g, b.parent, b.child, b.attribute);
    ConnectedTransitive(g.edges, root, b.parent, b.child);
  }

  lemma LinkedConnected(g: JoinGraph, u: nat, v: nat, attribute: AttributeId)
    requires Linked(g, u, v, attribute)
    ensures Connected(g.edges, u, v)
  {
    if JoinEdge(u, v, attribute) in g.edges {
      ConnectedEdge(g.edges, JoinEdge(u, v, attribute));
    } else {
      ConnectedEdge(g.edges, JoinEdge(v, u, attribute));
      ConnectedSymmetric(g.edges, v, u);
    }
  }

  /** A graph whose relations are all connected to one of them is a single component. */
  lemma SingleComponent(g: JoinGraph, root: nat, comps: seq<seq<nat>>)
    requires g.Valid() && IsPartition(g, comps) && root < g.Size()
    requires forall v: nat | v < g.Size() :: Connected(g.edges, root, v)
    ensures |comps| == 1 && forall v: nat | v < g.Size() :: v in comps[0]
  {
    assert Placed(comps, root);
    var c :| 0 <= c < |comps| && root in comps[c];
    forall d, v | 0 <= d < |comps| && v in comps[d] ensures d == c {
      assert Connected(g.edges, root, v);
    }
    assert comps[0][0] in comps[0];
    assert comps[|comps| - 1][0] in comps[|comps| - 1];
    forall v: nat | v < g.Size() ensures v in comps[0] {
      assert Placed(comps, v);
    }
  }

  lemma KeyTreeComponent(g: JoinGraph, root: nat, tree: seq<Branch>, component: seq<nat>)
    requires g.Valid() && ReachesByKeys(g, root, tree) && IsScope(g, component)
    requires forall v: nat | v < g.Size() :: v in component
    requires root in component
    ensures ComponentBound(g, component) <= g.Rows(root)
  {
    RootBoundsComponent(g, component, root);
    if |component| > 1 {
      KeyTreeGrow(g, root, tree, component, [root], g.Rows(root));
    }
  }

  /** If every relation is reached from the root over keys, the ceiling is at most the root's rows. */
  lemma KeyTreeCeiling(g: JoinGraph, root: nat, tree: seq<Branch>)
    requires g.Valid() && ReachesByKeys(g, root, tree)
    ensures root < g.Size() && CeilingOf(g) <= g.Rows(root)
  {
    var comps := ComponentsOf(g);
    ComponentsArePartition(g);
    assert Listing(root, tree)[0] == root;
    assert root in Listing(root, tree);
    TreeIsConnected(g, root, tree, |tree|);
    assert tree[..|tree|] == tree;
    SingleComponent(g, root, comps);
    KeyTreeComponent(g, root, tree, comps[0]);
    assert BoundsOf(g) == [ComponentBound(g, comps[0])];
    SingleFactor(ComponentBound(g, comps[0]));
  }

  lemma SingleFactor(b: u64)
    ensures EarlyExitProduct(1, [b]) == b
  {
  }

  // Connected graphs in which every relation but the root has a key in each of its edges.

  ghost predicate KeyedBut(g: JoinGraph, root: nat)
    requires g.Valid()
  {
    forall e | e in g.edges ::
      && (e.left != root ==> IsKey(g.relations[e.left], e.attribute))
      && (e.right != root ==> IsKey(g.relations[e.right], e.attribute))
  }

  lemma {:induction false} KeyedGrow(g: JoinGraph, root: nat, component: seq<nat>, visited: seq<nat>, bound: u128)
    requires g.Valid() && KeyedBut(g, root) && bound <= U64_MAX
    requires IsComponent(g, component) && Growing(g, component, visited) && root in visited
    ensures Grow(g, component, visited, bound) <= bound
    decreases |component| - |visited|
  {
    VisitedFits(g, component, visited);
    if |visited| < |component| {
      ComponentIsGrowable(g, component, visited);
      CheapestIsMinimal(g, component, visited);
      var (next, factor) := Cheapest(g, component, visited).value;
      var u: nat, attribute :| Crosses(g, component, visited, u, next, attribute) && next < g.Size() &&
                               Costs(g.relations[next], attribute, factor);
      assert JoinEdge(u, next, attribute) in g.edges || JoinEdge(next, u, attribute) in g.edges;
      WideProductIsExact(bound, factor);
      MulMonotone(bound, factor, bound, 1);
      AttachKeepsGrowing(g, component, visited, next);
      if bound * factor < U64_MAX {
        KeyedGrow(g, root, component, visited + [next], bound * factor);
      }
    }
  }

  /** Then the ceiling is at most the root's rows, whatever cycles the edges form. */
  lemma KeyedCeiling(g: JoinGraph, root: nat)
    requires g.Valid() && root < g.Size() && KeyedBut(g, root)
    requires forall v: nat | v < g.Size() :: Connected(g.edges, root, v)
    ensures CeilingOf(g) <= g.Rows(root)
  {
    var comps := ComponentsOf(g);
    ComponentsArePartition(g);
    PartitionParts(g, comps);
    SingleComponent(g, root, comps);
    var component := comps[0];
    RootBoundsComponent(g, component, root);
    if |component| > 1 {
      KeyedGrow(g, root, component, [root], g.Rows(root));
    }
    assert BoundsOf(g) == [ComponentBound(g, component)];
    SingleFactor(ComponentBound(g, component));
  }

  /** Which rows of the next child extend a tuple over the relations listed so far. */
  lemma BranchMatches(g: JoinGraph, db: Database, root: nat, tree: seq<Branch>, k: nat, t: Tuple)
    requires g.Valid() && |db| == g.Size() && k < |tree|
    requires ReachesByKeys(g, root, tree) && HasOnlyBranches(g, tree)
    requires t in PartialJoin(g, db, Elements(Listing(root, tree[..k])))
    ensures tree[k].child < |db| && tree[k].parent < |db|
    ensures tree[k].parent in t && t[tree[k].parent] < |db[tree[k].parent]|
    ensures Matches(g, db, t, tree[k].child) == Partners(db, tree[k], t[tree[k].parent])
  {
    var scope := Elements(Listing(root, tree[..k]));
    assert IsKeyBranch(g, root, tree, k);
    ListingGrows(root, tree, k);
    assert forall v | v in scope :: v in Listing(root, tree);
    PartialJoinMembers(g, db, scope);
    var b := tree[k];
    assert b.child !in t by {
      assert forall i | 0 <= i <= k :: Listing(root, tree)[i] != Listing(root, tree)[k + 1];
    }
    forall r: nat | r < |db[b.child]|
      ensures Satisfies(db, g.edges, Extend(t, b.child, r)) <==> RowsAgree(db, b.attribute, b.parent, t[b.parent], b.child, r)
    {
      OnlyBranchMatters(g, db, root, tree, k, t, r);
    }
  }

  lemma OnlyBranchMatters(g: JoinGraph, db: Database, root: nat, tree: seq<Branch>, k: nat, t: Tuple, r: nat)
    requires g.Valid() && |db| == g.Size() && k < |tree|
    requires ReachesByKeys(g, root, tree) && HasOnlyBranches(g, tree)
    requires t.Keys == Elements(Listing(root, tree[..k])) && Satisfies(db, g.edges, t)
    requires tree[k].child !in t
    ensures tree[k].parent in t
    ensures Satisfies(db, g.edges, Extend(t, tree[k].child, r)) <==>
            RowsAgree(db, tree[k].attribute, tree[k].parent, t[tree[k].parent], tree[k].child, r)
  {
    assert IsKeyBranch(g, root, tree, k);
    var b, t' := tree[k], Extend(t, tree[k].child, r);
    if Satisfies(db, g.edges, t') {
      if JoinEdge(b.parent, b.child, b.attribute) in g.edges {
        assert Holds(db, JoinEdge(b.parent, b.child, b.attribute), t');
      } else {
        assert Holds(db, JoinEdge(b.child, b.parent, b.attribute), t');
      }
    }
    if RowsAgree(db, b.attribute, b.parent, t[b.parent], b.child, r) {
      forall e | e in g.edges ensures Holds(db, e, t') {
        BranchHolds(g, db, root, tree, k, t, r, e);
      }
    }
  }

  lemma BranchHolds(g: JoinGraph, db: Database, root: nat, tree: seq<Branch>, k: nat, t: Tuple, r: nat, e: JoinEdge)
    requires g.Valid() && |db| == g.Size() && k < |tree| && e in g.edges
    requires ReachesByKeys(g, root, tree) && HasOnlyBranches(g, tree)
    requires t.Keys == Elements(Listing(root, tree[..k])) && Holds(db, e, t)
    requires tree[k].child !in t && tree[k].parent in t
    requires RowsAgree(db, tree[k].attribute, tree[k].parent, t[tree[k].parent], tree[k].child, r)
    ensures Holds(db, e, Extend(t, tree[k].child, r))
  {
    var b, t' := tree[k], Extend(t, tree[k].child, r);
    if e.left in t' && e.right in t' && (e.left == b.child || e.right == b.child) {
      ListingGrows(root, tree, k);
      EdgeIsBranch(g, root, tree, k, e);
    }
  }

  /** Among the first k + 2 relations listed, the last one lies on its own branch only. */
  lemma EdgeIsBranch(g: JoinGraph, root: nat, tree: seq<Branch>, k: nat, e: JoinEdge)
    requires g.Valid() && ReachesByKeys(g, root, tree) && HasOnlyBranches(g, tree) && k < |tree| && e in g.edges
    requires e.left == tree[k].child || e.right == tree[k].child
    requires e.left in Listing(root, tree[..k + 1]) && e.right in Listing(root, tree[..k + 1])
    ensures Branch(e.left, e.right, e.attribute) == tree[k] || Branch(e.right, e.left, e.attribute) == tree[k]
  {
    var b := if Branch(e.left, e.right, e.attribute) in tree then Branch(e.left, e.right, e.attribute)
             else Branch(e.right, e.left, e.attribute);
    var j :| 0 <= j < |tree| && tree[j] == b;
    ListingGrows(root, tree, j);
    ListingGrows(root, tree, k);
    var all := Listing(root, tree);
    assert all[j + 1] == b.child && all[k + 1] == tree[k].child;
    assert j <= k by {
      var i :| 0 <= i < |Listing(root, tree[..k + 1])| && Listing(root, tree[..k + 1])[i] == b.child;
      assert all[i] == b.child;
    }
    assert IsKeyBranch(g, root, tree, j);
    assert j == k;
  }

  lemma {:induction false} KeyTreeJoin(g: JoinGraph, db: Database, root: nat, tree: seq<Branch>, k: nat)
    requires g.Valid() && |db| == g.Size() && k <= |tree|
    requires ReachesByKeys(g, root, tree) && HasOnlyBranches(g, tree) && MatchesOnce(db, tree)
    ensures root < |db| && JoinSize(g, db, Elements(Listing(root, tree[..k]))) == |db[root]|
  {
    assert Listing(root, tree)[0] == root;
    assert root in Listing(root, tree);
    if k == 0 {
      SingleRelation(g, db, root);
      assert Listing(root, tree[..0]) == [root];
      assert Elements([root]) == {root};
    } else {
      KeyTreeJoin(g, db, root, tree, k - 1);
      var scope, v := Elements(Listing(root, tree[..k - 1])), tree[k - 1].child;
      NextScope(g, root, tree, k - 1);
      forall t | t in PartialJoin(g, db, scope) ensures |Matches(g, db, t, v)| == 1 {
        BranchMatches(g, db, root, tree, k - 1, t);
      }
      AttachExact(g, db, scope, v, 1);
    }
  }

  lemma NextScope(g: JoinGraph, root: nat, tree: seq<Branch>, k: nat)
    requires ReachesByKeys(g, root, tree) && k < |tree|
    ensures forall u | u in Elements(Listing(root, tree[..k])) :: u < g.Size()
    ensures tree[k].child < g.Size() && tree[k].child !in Elements(Listing(root, tree[..k]))
    ensures Elements(Listing(root, tree[..k + 1])) == Elements(Listing(root, tree[..k])) + {tree[k].child}
  {
    ListingGrows(root, tree, k);
    assert IsKeyBranch(g, root, tree, k);
    var all, listed := Listing(root, tree), Listing(root, tree[..k]);
    forall i | 0 <= i < |listed| ensures listed[i] in all && listed[i] != tree[k].child {
      assert all[i] == listed[i] && all[i] != all[k + 1];
    }
  }

  lemma SingleRelation(g: JoinGraph, db: Database, v: nat)
    requires g.Valid() && |db| == g.Size() && v < |db|
    ensures JoinSize(g, db, {v}) == |db[v]|
  {
    EmptyScope(g, db);
    forall t | t in PartialJoin(g, db, {}) ensures |Matches(g, db, t, v)| == |db[v]| {
      PartialJoinMembers(g, db, {});
      assert t.Keys == {};
      assert Matches(g, db, t, v) == Below(|db[v]|);
      BelowCount(|db[v]|);
    }
    AttachExact(g, db, {}, v, |db[v]|);
    assert {} + {v} == {v};
  }

  /**
    A tree of key joins in which every row finds its partner: the ceiling is the true
    cardinality, which is the root's row count.
   */
  lemma KeyTreeExact(g: JoinGraph, db: Database, root: nat, tree: seq<Branch>)
    requires g.Valid() && Consistent(g, db)
    requires ReachesByKeys(g, root, tree) && HasOnlyBranches(g, tree) && MatchesOnce(db, tree)
    requires root < g.Size() && |db[root]| == g.Rows(root)
    ensures CeilingOf(g) == |Join(g, db)| == g.Rows(root)
  {
    KeyTreeCeiling(g, root, tree);
    KeyTreeJoin(g, db, root, tree, |tree|);
    assert tree[..|tree|] == tree;
    assert Elements(Listing(root, tree)) == Below(|db|);
    CeilingSound(g, db);
  }

  // Two relations.

  /** The least that attaching the relation costs over any edge. */
  ghost predicate IsLeastCost(g: JoinGraph, v: nat, factor: u64)
    requires v < g.Size()
  {
    && (exists e :: e in g.edges && Costs(g.relations[v], e.attribute, factor))
    && (forall e, other | e in g.edges && Costs(g.relations[v], e.attribute, other) :: factor <= other)
  }

  /** From one of two joined relations the other is attached at its least cost. */
  lemma OtherAttached(g: JoinGraph, component: seq<nat>, root: nat, factor: u64)
    requires g.Valid() && g.Size() == 2 && g.edges != [] && component == [0, 1] && root < 2
    requires IsLeastCost(g, 1 - root, factor)
    ensures Grow(g, component, [root], g.Rows(root)) == Clamp(g.Rows(root) * factor)
  {
    var other := 1 - root;
    CheapestIsMinimal(g, component, [root]);
    forall e | e in g.edges ensures Crosses(g, component, [root], root, other, e.attribute) {
      assert JoinEdge(e.left, e.right, e.attribute) == e;
    }
    var e :| e in g.edges && Costs(g.relations[other], e.attribute, factor);
    var (next, cost) := Cheapest(g, component, [root]).value;
    assert next == other;
    assert cost == factor by {
      var u: nat, attribute :| Crosses(g, component, [root], u, next, attribute) && Costs(g.relations[next], attribute, cost);
      assert JoinEdge(u, next, attribute) in g.edges || JoinEdge(next, u, attribute) in g.edges;
    }
    WideProductIsExact(g.Rows(root), factor);
    assert |[root] + [other]| == |component|;
  }

  lemma TwoListed(g: JoinGraph)
    requires g.Valid() && g.Size() == 2 && g.edges != []
    ensures ComponentsOf(g) == [[0, 1]]
  {
    var comps, e := ComponentsOf(g), g.edges[0];
    ComponentsArePartition(g);
    ConnectedReflexive(g.edges, 0);
    ConnectedEdge(g.edges, e);
    ConnectedSymmetric(g.edges, e.left, e.right);
    SingleComponent(g, 0, comps);
    DistinctCount(comps[0]);
    assert Elements(comps[0]) == Below(2) && |Below(2)| == 2;
    var only := comps[0];
    assert |only| == 2;
    assert only[0] in only && only[1] in only && only[0] < only[1] < 2;
    assert only == [0, 1] && comps == [only];
  }

  /**
    Two joined relations: the ceiling is the least of their product and of either row
    count times what attaching the other costs, whatever degrees are attached.
   */
  lemma TwoRelationCeiling(g: JoinGraph, factor0: u64, factor1: u64)
    requires g.Valid() && g.Size() == 2 && g.edges != []
    requires IsLeastCost(g, 0, factor0) && IsLeastCost(g, 1, factor1)
    ensures CeilingOf(g) ==
            Clamp(Min(g.Rows(0) * g.Rows(1), Min(g.Rows(0) * factor1, g.Rows(1) * factor0)))
  {
    TwoListed(g);
    var component := ComponentsOf(g)[0];
    OtherAttached(g, component, 0, factor1);
    OtherAttached(g, component, 1, factor0);
    TwoBounds(g, component, 0, 1, g.Rows(0) * factor1, g.Rows(1) * factor0);
    SingleFactor(ComponentBound(g, component));
    assert BoundsOf(g) == [ComponentBound(g, component)];
  }

  lemma TwoBounds(g: JoinGraph, component: seq<nat>, a: nat, b: nat, fromA: nat, fromB: nat)
    requires g.Valid() && IsScope(g, component) && component == [a, b] && a < g.Size() && b < g.Size()
    requires Grow(g, component, [a], g.Rows(a)) == Clamp(fromA) && Grow(g, component, [b], g.Rows(b)) == Clamp(fromB)
    ensures ComponentBound(g, component) == Clamp(Min(g.Rows(a) * g.Rows(b), Min(fromA, fromB)))
  {
    assert RowCounts(g, component) == [g.Rows(a), g.Rows(b)];
    PairProduct(g.Rows(a), g.Rows(b));
    BestOverIsLeast(g, component, |component|);
    assert component[0] == a && component[1] == b;
  }

  lemma PairProduct(a: nat, b: nat)
    ensures Product([a, b]) == a * b
  {
    assert [a] + [b] == [a, b];
    ProductOfConcat([a], [b]);
    assert Product([a]) == a && Product([b]) == b;
  }

  /** Ten orders, each found by at most one order; a hundred line items with at most 91 to an order. */
  const ORDERS_AND_ITEMS: JoinGraph :=
    JoinGraph.New([JoinRelation.New(10).WithDegree(0, FromDistinct(10, 10)),
                   JoinRelation.New(100).WithDegree(0, FromDistinct(100, 10))]).WithEdge(0, 1, 0)

  /** Their ceiling is 100, a tenth of the product. */
  lemma OrdersAndItems()
    ensures ORDERS_AND_ITEMS.Valid() && CeilingOf(ORDERS_AND_ITEMS) == 100
  {
    OneEdge(ORDERS_AND_ITEMS, JoinEdge(0, 1, 0), 1, 91);
  }

  /** The same with a single edge. */
  lemma OneEdge(g: JoinGraph, e: JoinEdge, factor0: u64, factor1: u64)
    requires g.Valid() && g.Size() == 2 && g.edges == [e]
    requires Costs(g.relations[0], e.attribute, factor0) && Costs(g.relations[1], e.attribute, factor1)
    ensures CeilingOf(g) ==
            Clamp(Min(g.Rows(0) * g.Rows(1), Min(g.Rows(0) * factor1, g.Rows(1) * factor0)))
  {
    assert e in g.edges;
    TwoRelationCeiling(g, factor0, factor1);
  }

  // Row counts alone: no ceiling below the Cartesian product can be sound.

  /** No attached degree says more than the row count does. */
  ghost predicate RowCountsOnly(g: JoinGraph) {
    forall v, a | 0 <= v < g.Size() && a in g.relations[v].degrees ::
      g.relations[v].degrees[a].maxDegree >= g.Rows(v)
  }

  /** Every row of every relation carries 0 in every join attribute. */
  ghost function OneKey(g: JoinGraph): (db: Database)
    ensures |db| == g.Size()
  {
    seq(g.Size(), v requires 0 <= v < g.Size() =>
      seq(g.Rows(v), _ => KeyRow(Attributes(g))))
  }

  ghost function Attributes(g: JoinGraph): set<AttributeId> {
    set e | e in g.edges :: e.attribute
  }

  ghost function KeyRow(attributes: set<AttributeId>): Row {
    map a | a in attributes :: 0
  }

  lemma OneKeyMatches(g: JoinGraph, scope: set<nat>, t: Tuple, v: nat)
    requires g.Valid() && v < g.Size() && v !in scope && InScope(OneKey(g), scope)
    requires t in PartialJoin(g, OneKey(g), scope)
    ensures |Matches(g, OneKey(g), t, v)| == g.Rows(v)
  {
    var db := OneKey(g);
    PartialJoinMembers(g, db, scope);
    forall r: nat | r < |db[v]| ensures Satisfies(db, g.edges, Extend(t, v, r)) {
      forall e | e in g.edges ensures Holds(db, e, Extend(t, v, r)) {
        assert e.attribute in Attributes(g);
      }
    }
    assert Matches(g, db, t, v) == Below(|db[v]|);
    BelowCount(|db[v]|);
  }

  lemma {:induction false} OneKeyJoin(g: JoinGraph, n: nat)
    requires g.Valid() && n <= g.Size()
    ensures JoinSize(g, OneKey(g), Below(n)) == Product(AllRows(g)[..n])
  {
    var db, rows := OneKey(g), AllRows(g);
    if n == 0 {
      EmptyScope(g, db);
    } else {
      OneKeyJoin(g, n - 1);
      var before, v := Below(n - 1), n - 1;
      forall t | t in PartialJoin(g, db, before) ensures |Matches(g, db, t, v)| == rows[v] {
        OneKeyMatches(g, before, t, v);
      }
      AttachExact(g, db, before, v, rows[v]);
      assert rows[..n] == rows[..n - 1] + [rows[n - 1]];
      ProductOfConcat(rows[..n - 1], [rows[n - 1]]);
      assert Product([rows[n - 1]]) == rows[n - 1];
    }
  }

  /**
    With row counts as the only statistic, some consistent instance joins to the full
    product; so no sound ceiling is below it, and this one is never above it unless
    a relation is empty.
   */
  lemma RowCountsAloneGiveTheProduct(g: JoinGraph)
    requires g.Valid() && RowCountsOnly(g)
    ensures Consistent(g, OneKey(g)) && |Join(g, OneKey(g))| == Product(AllRows(g))
    ensures g.relations != [] && 0 !in AllRows(g) ==> CeilingOf(g) == Clamp(Product(AllRows(g)))
  {
    var db := OneKey(g);
    OneKeyJoin(g, g.Size());
    assert AllRows(g)[..g.Size()] == AllRows(g);
    forall v | 0 <= v < |db| ensures Describes(g.relations[v], db[v]) {
      assert |db[v]| == g.Rows(v);
      forall a, value | a in g.relations[v].degrees
        ensures |RowsWith(db[v], a, value)| <= g.relations[v].degrees[a].maxDegree
      {
        BoundedCount(RowsWith(db[v], a, value), |db[v]|);
      }
    }
    if g.relations != [] {
      CeilingSound(g, db);
      WithinProductIff(g);
    }
  }
}
