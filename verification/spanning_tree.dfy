/** The greedy spanning tree grown from one root (`JoinGraph::spanning_tree_ceiling`). */
module SpanningTree {
  import opened Machine
  import opened Counting
  import opened Degree
  import opened Instances
  import opened JoinCounting
  import opened UnionFind
  import opened Saturation

  ghost function Elements(s: seq<nat>): set<nat> {
    set x | x in s
  }

  ghost predicate Distinct(s: seq<nat>) {
    forall i, j | 0 <= i < j < |s| :: s[i] != s[j]
  }

  ghost predicate IsScope(g: JoinGraph, component: seq<nat>) {
    Distinct(component) && forall v | v in component :: v < g.Size()
  }

  /** A state of the growth loop: `visited` lists relations of `component`, each once. */
  ghost predicate Growing(g: JoinGraph, component: seq<nat>, visited: seq<nat>) {
    && IsScope(g, component) && Distinct(visited) && visited != []
    && forall v | v in visited :: v in component
  }

  /** An edge orientation leading out of `visited` to another relation of the component. */
  ghost predicate Crosses(g: JoinGraph, component: seq<nat>, visited: seq<nat>, u: nat, v: nat, attribute: AttributeId) {
    Linked(g, u, v, attribute) && u in visited && v !in visited && v in component
  }

  ghost predicate Growable(g: JoinGraph, component: seq<nat>, visited: seq<nat>) {
    exists u: nat, v: nat, attribute :: Crosses(g, component, visited, u, v, attribute)
  }

  /** The relation to attach next, with the factor it costs. */
  type Choice = Option<(nat, u64)>

  /** One orientation of one edge, weighed against the best seen so far; ties keep the earlier one. */
  function Weigh(g: JoinGraph, component: seq<nat>, visited: seq<nat>,
                 from: nat, to: nat, attribute: AttributeId, best: Choice): Choice
    requires to < g.Size()
  {
    if from !in visited || to in visited then best
    else if to !in component then best
    else
      var factor := g.relations[to].Degree(attribute).maxDegree;
      if best.None? || factor < best.value.1 then Some((to, factor)) else best
  }

  /** The best choice among the first k edges. */
  function Scan(g: JoinGraph, component: seq<nat>, visited: seq<nat>, k: nat): Choice
    requires g.Valid() && k <= |g.edges|
  {
    if k == 0 then None
    else
      var e := g.edges[k - 1];
      assert e in g.edges;
      var best := Scan(g, component, visited, k - 1);
      Weigh(g, component, visited, e.right, e.left, e.attribute,
            Weigh(g, component, visited, e.left, e.right, e.attribute, best))
  }

  function Cheapest(g: JoinGraph, component: seq<nat>, visited: seq<nat>): Choice
    requires g.Valid()
  {
    Scan(g, component, visited, |g.edges|)
  }

  /** The choice crosses the frontier, at the stated factor. */
  ghost predicate Attaches(g: JoinGraph, component: seq<nat>, visited: seq<nat>, v: nat, factor: u64) {
    exists u, attribute ::
      Crosses(g, component, visited, u, v, attribute) && v < g.Size() && Costs(g.relations[v], attribute, factor)
  }

  /** The orientations of the edges in the order in which they are looked at: each edge left to right, then back. */
  ghost function Orientation(g: JoinGraph, p: nat): (nat, nat, AttributeId)
    requires p < 2 * |g.edges|
  {
    var e := g.edges[p / 2];
    if p % 2 == 0 then (e.left, e.right, e.attribute) else (e.right, e.left, e.attribute)
  }

  ghost predicate CrossesAt(g: JoinGraph, component: seq<nat>, visited: seq<nat>, p: nat, factor: u64)
    requires p < 2 * |g.edges|
  {
    var (u, v, attribute) := Orientation(g, p);
    v < g.Size() && Crosses(g, component, visited, u, v, attribute) && Costs(g.relations[v], attribute, factor)
  }

  /** Orientation p crosses at that cost; among the first n none is cheaper, and none before it as cheap. */
  ghost predicate FirstAt(g: JoinGraph, component: seq<nat>, visited: seq<nat>, n: nat, v: nat, factor: u64, p: nat)
    requires n <= 2 * |g.edges|
  {
    && p < n && CrossesAt(g, component, visited, p, factor) && Orientation(g, p).1 == v
    && forall q: nat, other | q < n && CrossesAt(g, component, visited, q, other) ::
         factor <= other && (q < p ==> factor < other)
  }

  /** The first of the cheapest among the first n orientations, or none if none of them crosses. */
  ghost predicate IsFirstCheapest(g: JoinGraph, component: seq<nat>, visited: seq<nat>, n: nat, c: Choice)
    requires n <= 2 * |g.edges|
  {
    if c.None? then forall q: nat, other | q < n :: !CrossesAt(g, component, visited, q, other)
    else exists p :: FirstAt(g, component, visited, n, c.value.0, c.value.1, p)
  }

  lemma WeighNext(g: JoinGraph, component: seq<nat>, visited: seq<nat>, n: nat, c: Choice)
    requires g.Valid() && n < 2 * |g.edges| && IsFirstCheapest(g, component, visited, n, c)
    ensures var (u, v, attribute) := Orientation(g, n);
            v < g.Size() && IsFirstCheapest(g, component, visited, n + 1, Weigh(g, component, visited, u, v, attribute, c))
  {
    var e := g.edges[n / 2];
    assert e in g.edges && JoinEdge(e.left, e.right, e.attribute) == e;
    var (u, v, attribute) := Orientation(g, n);
    var next := Weigh(g, component, visited, u, v, attribute, c);
    if next != c {
      assert CrossesAt(g, component, visited, n, next.value.1);
      if c.Some? {
        var p: nat :| FirstAt(g, component, visited, n, c.value.0, c.value.1, p);
      }
      assert FirstAt(g, component, visited, n + 1, next.value.0, next.value.1, n);
    } else if c.Some? {
      var p: nat :| FirstAt(g, component, visited, n, c.value.0, c.value.1, p);
      assert FirstAt(g, component, visited, n + 1, c.value.0, c.value.1, p);
    }
  }

  lemma {:induction false} ScanIsFirst(g: JoinGraph, component: seq<nat>, visited: seq<nat>, k: nat)
    requires g.Valid() && k <= |g.edges|
    ensures IsFirstCheapest(g, component, visited, 2 * k, Scan(g, component, visited, k))
  {
    if k > 0 {
      ScanIsFirst(g, component, visited, k - 1);
      var e, best := g.edges[k - 1], Scan(g, component, visited, k - 1);
      assert e in g.edges;
      assert Orientation(g, 2 * (k - 1)) == (e.left, e.right, e.attribute);
      assert Orientation(g, 2 * (k - 1) + 1) == (e.right, e.left, e.attribute);
      WeighNext(g, component, visited, 2 * (k - 1), best);
      WeighNext(g, component, visited, 2 * (k - 1) + 1, Weigh(g, component, visited, e.left, e.right, e.attribute, best));
    }
  }

  /** The scan picks, of all orientations that cross the frontier, the first of the cheapest. */
  lemma CheapestIsFirst(g: JoinGraph, component: seq<nat>, visited: seq<nat>)
    requires g.Valid()
    ensures IsFirstCheapest(g, component, visited, 2 * |g.edges|, Cheapest(g, component, visited))
  {
    ScanIsFirst(g, component, visited, |g.edges|);
  }

  lemma CrossingPosition(g: JoinGraph, component: seq<nat>, visited: seq<nat>, u: nat, v: nat, attribute: AttributeId)
    returns (p: nat)
    requires g.Valid() && Crosses(g, component, visited, u, v, attribute)
    ensures p < 2 * |g.edges| && Orientation(g, p) == (u, v, attribute) && v < g.Size()
  {
    var e := if JoinEdge(u, v, attribute) in g.edges then JoinEdge(u, v, attribute) else JoinEdge(v, u, attribute);
    assert e in g.edges;
    var i :| 0 <= i < |g.edges| && g.edges[i] == e;
    p := if JoinEdge(u, v, attribute) in g.edges then 2 * i else 2 * i + 1;
  }

  /**
    The scan finds a relation across the frontier whenever there is one, and no
    orientation across the frontier is cheaper than the one it returns.
   */
  lemma CheapestIsMinimal(g: JoinGraph, component: seq<nat>, visited: seq<nat>)
    requires g.Valid()
    ensures Cheapest(g, component, visited).Some? <==> Growable(g, component, visited)
    ensures var c := Cheapest(g, component, visited);
            c.Some? ==> Attaches(g, component, visited, c.value.0, c.value.1)
    ensures var c := Cheapest(g, component, visited);
            forall u: nat, v: nat, attribute, factor |
              Crosses(g, component, visited, u, v, attribute) && v < g.Size() && Costs(g.relations[v], attribute, factor) ::
              c.Some? && c.value.1 <= factor
  {
    CheapestIsFirst(g, component, visited);
    var c := Cheapest(g, component, visited);
    if c.Some? {
      var p: nat :| FirstAt(g, component, visited, 2 * |g.edges|, c.value.0, c.value.1, p);
    }
    forall u: nat, v: nat, attribute | Crosses(g, component, visited, u, v, attribute)
      ensures v < g.Size() && forall factor | Costs(g.relations[v], attribute, factor) :: c.Some? && c.value.1 <= factor
    {
      var p := CrossingPosition(g, component, visited, u, v, attribute);
      assert forall factor | Costs(g.relations[v], attribute, factor) :: CrossesAt(g, component, visited, p, factor);
    }
    if Growable(g, component, visited) {
      var u: nat, v: nat, attribute :| Crosses(g, component, visited, u, v, attribute);
      var p := CrossingPosition(g, component, visited, u, v, attribute);
      assert CrossesAt(g, component, visited, p, g.relations[v].Degree(attribute).maxDegree);
    }
  }

  // The growth loop as a function.

  lemma VisitedFits(g: JoinGraph, component: seq<nat>, visited: seq<nat>)
    requires Growing(g, component, visited)
    ensures |visited| <= |component|
    ensures |visited| == |component| ==> Elements(visited) == Elements(component)
  {
    DistinctCount(visited);
    DistinctCount(component);
    assert Elements(visited) <= Elements(component);
    SubsetCount(Elements(visited), Elements(component));
    var rest := Elements(component) - Elements(visited);
    assert Elements(component) == Elements(visited) + rest;
    assert |rest| == 0 ==> rest == {};
  }

  /** Multiplies in the rows of every relation from position k on that is still unvisited. */
  function FillIn(g: JoinGraph, component: seq<nat>, k: nat, visited: seq<nat>, bound: u128): u128
    requires IsScope(g, component) && k <= |component|
    decreases |component| - k
  {
    if k == |component| then bound
    else
      assert component[k] in component;
      if component[k] in visited then FillIn(g, component, k + 1, visited, bound)
      else
        FillIn(g, component, k + 1, visited + [component[k]], SaturatingMul128(bound, g.Rows(component[k])))
  }

  /** What the loop returns when it is entered with this state. */
  function Grow(g: JoinGraph, component: seq<nat>, visited: seq<nat>, bound: u128): u64
    requires g.Valid() && IsScope(g, component)
    decreases |component| - |visited|
  {
    if |visited| >= |component| then Clamp(bound)
    else
      match Cheapest(g, component, visited)
      case None => Clamp(FillIn(g, component, 0, visited, bound))
      case Some((next, factor)) =>
        var wider := SaturatingMul128(bound, factor);
        if wider >= U64_MAX then U64_MAX else Grow(g, component, visited + [next], wider)
  }

  lemma AttachKeepsGrowing(g: JoinGraph, component: seq<nat>, visited: seq<nat>, v: nat)
    requires Growing(g, component, visited) && v in component && v !in visited
    ensures Growing(g, component, visited + [v])
    ensures Elements(visited + [v]) == Elements(visited) + {v}
  {
  }

  // Soundness.

  lemma ScopeOfSeq(g: JoinGraph, db: Database, component: seq<nat>, visited: seq<nat>)
    requires Consistent(g, db) && Growing(g, component, visited)
    ensures InScope(db, Elements(visited))
  {
  }

  /**
    One attachment: if the bound covered the tuples over `visited`, the wider bound
    covers those over `visited` and the attached relation, all edges among them applied.
   */
  lemma AttachSound(g: JoinGraph, db: Database, component: seq<nat>, visited: seq<nat>, bound: nat)
    requires g.Valid() && Consistent(g, db) && Growing(g, component, visited)
    requires Cheapest(g, component, visited).Some?
    requires JoinSize(g, db, Elements(visited)) <= bound
    ensures var (next, factor) := Cheapest(g, component, visited).value;
            && next in component && next !in visited && Growing(g, component, visited + [next])
            && JoinSize(g, db, Elements(visited + [next])) <= bound * factor
  {
    CheapestIsMinimal(g, component, visited);
    ScopeOfSeq(g, db, component, visited);
    var (next, factor) := Cheapest(g, component, visited).value;
    var u, attribute :| Crosses(g, component, visited, u, next, attribute) && next < g.Size() &&
                        Costs(g.relations[next], attribute, factor);
    AttachKeepsGrowing(g, component, visited, next);
    AttachLinked(g, db, Elements(visited), u, next, attribute);
    MulMonotone(JoinSize(g, db, Elements(visited)), factor, bound, factor);
  }

  lemma {:induction false} FillInSound(g: JoinGraph, db: Database, component: seq<nat>, k: nat,
                                       visited: seq<nat>, bound: u128)
    requires g.Valid() && Consistent(g, db) && Growing(g, component, visited) && k <= |component|
    requires forall v | v in component[..k] :: v in visited
    requires JoinSize(g, db, Elements(visited)) <= bound || bound == U128_MAX
    ensures var total := FillIn(g, component, k, visited, bound);
            JoinSize(g, db, Elements(component)) <= total || total == U128_MAX
    decreases |component| - k
  {
    if k == |component| {
      assert component[..k] == component;
      assert Elements(visited) == Elements(component);
    } else {
      var v := component[k];
      assert component[..k + 1] == component[..k] + [v];
      if v in visited {
        FillInSound(g, db, component, k + 1, visited, bound);
      } else {
        ScopeOfSeq(g, db, component, visited);
        AttachKeepsGrowing(g, component, visited, v);
        AttachFree(g, db, Elements(visited), v);
        var size := JoinSize(g, db, Elements(visited));
        WidenSound(size, JoinSize(g, db, Elements(visited + [v])), bound, g.Rows(v));
        FillInSound(g, db, component, k + 1, visited + [v], SaturatingMul128(bound, g.Rows(v)));
      }
    }
  }

  lemma WidenSound(size: nat, wider: nat, bound: u128, rows: u64)
    requires size <= bound || bound == U128_MAX
    requires wider <= size * rows
    ensures wider <= SaturatingMul128(bound, rows) || SaturatingMul128(bound, rows) == U128_MAX
  {
  }

  /** Whatever the greedy choices, the loop's result covers the join over the component. */
  lemma {:induction false} GrowSound(g: JoinGraph, db: Database, component: seq<nat>, visited: seq<nat>, bound: u128)
    requires g.Valid() && Consistent(g, db) && Growing(g, component, visited)
    requires JoinSize(g, db, Elements(visited)) <= bound <= U64_MAX
    ensures Min(JoinSize(g, db, Elements(component)), U64_MAX) <= Grow(g, component, visited, bound)
    decreases |component| - |visited|
  {
    VisitedFits(g, component, visited);
    if |visited| < |component| {
      match Cheapest(g, component, visited)
      case None =>
        FillInSound(g, db, component, 0, visited, bound);
      case Some((next, factor)) =>
        WideProductIsExact(bound, factor);
        AttachSound(g, db, component, visited, bound);
        if bound * factor < U64_MAX {
          GrowSound(g, db, component, visited + [next], bound * factor);
        }
    }
  }

  // Growth over a connected component.

  /** The relations listed are exactly those a path joins to any one of them. */
  ghost predicate IsComponent(g: JoinGraph, component: seq<nat>) {
    && IsScope(g, component)
    && (forall x, y | x in component && y in component :: Connected(g.edges, x, y))
    && (forall x: nat, y: nat | x in component && Connected(g.edges, x, y) && y < g.Size() :: y in component)
  }

  lemma {:induction false} PathCrosses(g: JoinGraph, component: seq<nat>, visited: seq<nat>, path: seq<nat>)
    requires g.Valid() && IsComponent(g, component) && Growing(g, component, visited)
    requires IsPath(g.edges, path) && path[0] in visited && path[|path| - 1] !in visited
    ensures Growable(g, component, visited)
  {
    assert |path| > 1;
    var u, v := path[0], path[1];
    assert Adjacent(g.edges, path[0], path[0 + 1]);
    var e :| e in g.edges && ((e.left == u && e.right == v) || (e.left == v && e.right == u));
    if v in visited {
      var rest := path[1..];
      forall i | 0 <= i < |rest| - 1 ensures Adjacent(g.edges, rest[i], rest[i + 1]) {
        assert Adjacent(g.edges, path[i + 1], path[i + 1 + 1]);
      }
      PathCrosses(g, component, visited, rest);
    } else {
      ConnectedEdge(g.edges, e);
      ConnectedSymmetric(g.edges, e.left, e.right);
      assert JoinEdge(e.left, e.right, e.attribute) == e;
      assert Crosses(g, component, visited, u, v, e.attribute);
    }
  }

  /** On a component there is always an edge to grow along until every relation is visited. */
  lemma ComponentIsGrowable(g: JoinGraph, component: seq<nat>, visited: seq<nat>)
    requires g.Valid() && IsComponent(g, component) && Growing(g, component, visited)
    requires |visited| < |component|
    ensures Growable(g, component, visited)
  {
    DistinctCount(visited);
    DistinctCount(component);
    assert exists y :: y in component && y !in visited by {
      if forall y | y in component :: y in visited {
        assert Elements(component) <= Elements(visited);
        SubsetCount(Elements(component), Elements(visited));
        assert false;
      }
    }
    var y :| y in component && y !in visited;
    assert visited[0] in visited;
    assert Connected(g.edges, visited[0], y);
    var path :| IsPath(g.edges, path) && path[0] == visited[0] && path[|path| - 1] == y;
    PathCrosses(g, component, visited, path);
  }

  /** The factors the loop picks on a component, in the order it attaches relations. */
  ghost function TreeFactors(g: JoinGraph, component: seq<nat>, visited: seq<nat>): (factors: seq<u64>)
    requires g.Valid() && IsScope(g, component)
    decreases |component| - |visited|
  {
    if |visited| >= |component| then []
    else
      match Cheapest(g, component, visited)
      case None => []
      case Some((next, factor)) => [factor] + TreeFactors(g, component, visited + [next])
  }

  /** The relations in the order the loop visits them. */
  ghost function TreeOrder(g: JoinGraph, component: seq<nat>, visited: seq<nat>): seq<nat>
    requires g.Valid() && IsScope(g, component)
    decreases |component| - |visited|
  {
    if |visited| >= |component| then visited
    else
      match Cheapest(g, component, visited)
      case None => visited
      case Some((next, _)) => TreeOrder(g, component, visited + [next])
  }

  /**
    On a component the fallback is never taken and no 128-bit product saturates: the
    loop visits exactly the component, one factor per attached relation, and returns
    the early-exit product of those factors.
   */
  lemma {:induction false} GrowIsTreeProduct(g: JoinGraph, component: seq<nat>, visited: seq<nat>, bound: u128)
    requires g.Valid() && IsComponent(g, component) && Growing(g, component, visited) && bound <= U64_MAX
    ensures Grow(g, component, visited, bound) == EarlyExitProduct(bound, TreeFactors(g, component, visited))
    ensures |TreeFactors(g, component, visited)| == |component| - |visited|
    ensures Elements(TreeOrder(g, component, visited)) == Elements(component)
    decreases |component| - |visited|
  {
    VisitedFits(g, component, visited);
    if |visited| < |component| {
      ComponentIsGrowable(g, component, visited);
      CheapestIsMinimal(g, component, visited);
      var (next, factor) := Cheapest(g, component, visited).value;
      WideProductIsExact(bound, factor);
      AttachKeepsGrowing(g, component, visited, next);
      GrowIsTreeProduct(g, component, visited + [next], Clamp(bound * factor));
      assert ([factor] + TreeFactors(g, component, visited + [next]))[1..] == TreeFactors(g, component, visited + [next]);
    }
  }

  /** With every chosen factor at least 1 the result is the exact tree product, clamped. */
  lemma TreeProductExact(g: JoinGraph, component: seq<nat>, root: nat)
    requires g.Valid() && IsComponent(g, component) && root in component
    ensures var factors := TreeFactors(g, component, [root]);
            && (0 !in factors ==>
                  Grow(g, component, [root], g.Rows(root)) == Clamp(g.Rows(root) * Product(factors)))
            && (Grow(g, component, [root], g.Rows(root)) == Clamp(g.Rows(root) * Product(factors)) <==>
                !FillsBeforeZero(g.Rows(root), factors))
  {
    var factors := TreeFactors(g, component, [root]);
    GrowIsTreeProduct(g, component, [root], g.Rows(root));
    EarlyExitExact(g.Rows(root), factors);
    if FillsBeforeZero(g.Rows(root), factors) {
      var k :| FillsAt(g.Rows(root), factors, k);
      assert 0 in factors;
    }
  }

  // The loop itself.

  method CheapestEdge(g: JoinGraph, component: seq<nat>, visited: seq<nat>) returns (best: Choice)
    requires g.Valid()
    ensures best == Cheapest(g, component, visited)
  {
    best := None;
    for k := 0 to |g.edges|
      invariant best == Scan(g, component, visited, k)
    {
      var edge := g.edges[k];
      assert edge in g.edges;
      var orientations := [(edge.left, edge.right), (edge.right, edge.left)];
      for o := 0 to 2
        invariant o == 0 ==> best == Scan(g, component, visited, k)
        invariant o == 1 ==> best == Weigh(g, component, visited, edge.left, edge.right, edge.attribute,
                                           Scan(g, component, visited, k))
        invariant o == 2 ==> best == Scan(g, component, visited, k + 1)
      {
        var (from, to) := orientations[o];
        if from !in visited || to in visited {
          continue;
        }
        if to !in component {
          continue;
        }
        var factor := g.relations[to].Degree(edge.attribute).maxDegree;
        if best.None? || factor < best.value.1 {
          best := Some((to, factor));
        }
      }
    }
  }

  method SpanningTreeCeiling(g: JoinGraph, component: seq<nat>, root: nat) returns (ceiling: u64)
    requires g.Valid() && IsScope(g, component) && root in component
    ensures ceiling == Grow(g, component, [root], g.Rows(root))
  {
    var visited := [root];
    var bound: u128 := g.Rows(root);
    while |visited| < |component|
      invariant Grow(g, component, visited, bound) == Grow(g, component, [root], g.Rows(root))
    {
      var best := CheapestEdge(g, component, visited);
      if best.None? {
        ghost var stuck, before := visited, bound;
        for k := 0 to |component|
          invariant FillIn(g, component, k, visited, bound) == FillIn(g, component, 0, stuck, before)
        {
          assert component[k] in component;
          if component[k] !in visited {
            bound := SaturatingMul128(bound, g.Rows(component[k]));
            visited := visited + [component[k]];
          }
        }
        return Clamp(bound);
      }
      var (next, factor) := best.value;
      bound := SaturatingMul128(bound, factor);
      visited := visited + [next];
      if bound >= U64_MAX {
        return U64_MAX;
      }
    }
    ceiling := Clamp(bound);
  }
}
