/** The join ceiling (`JoinGraph::ceiling`, `component_ceiling`) and its soundness theorem. */
module Ceiling {
  import opened Machine
  import opened Counting
  import opened Degree
  import opened Instances
  import opened JoinCounting
  import opened UnionFind
  import opened Saturation
  import opened SpanningTree

  function RowCounts(g: JoinGraph, component: seq<nat>): (rows: seq<u64>)
    requires IsScope(g, component)
    ensures |rows| == |component|
  {
    assert forall i | 0 <= i < |component| :: component[i] in component;
    seq(|component|, i requires 0 <= i < |component| => g.Rows(component[i]))
  }

  /** The least of the row product and the spanning-tree bounds from the first k roots. */
  function BestOver(g: JoinGraph, component: seq<nat>, k: nat): u64
    requires g.Valid() && IsScope(g, component) && k <= |component|
  {
    if k == 0 then Clamp(Product(RowCounts(g, component)))
    else
      var root := component[k - 1];
      assert root in component;
      var candidate := Grow(g, component, [root], g.Rows(root));
      var best := BestOver(g, component, k - 1);
      if candidate < best then candidate else best
  }

  function ComponentBound(g: JoinGraph, component: seq<nat>): u64
    requires g.Valid() && IsScope(g, component) && component != []
  {
    assert component[0] in component;
    if |component| == 1 then g.Rows(component[0]) else BestOver(g, component, |component|)
  }

  ghost predicate AllScopes(g: JoinGraph, comps: seq<seq<nat>>) {
    forall c | 0 <= c < |comps| :: comps[c] != [] && IsScope(g, comps[c])
  }

  function ComponentBounds(g: JoinGraph, comps: seq<seq<nat>>): (bounds: seq<u64>)
    requires g.Valid() && AllScopes(g, comps)
    ensures |bounds| == |comps|
  {
    seq(|comps|, c requires 0 <= c < |comps| => ComponentBound(g, comps[c]))
  }

  // One component.

  /** The join over any list of relations is at most the product of their row counts. */
  lemma {:induction false} RowProductSound(g: JoinGraph, db: Database, component: seq<nat>, k: nat)
    requires Consistent(g, db) && IsScope(g, component) && k <= |component|
    ensures JoinSize(g, db, Elements(component[..k])) <= Product(RowCounts(g, component)[..k])
  {
    if k == 0 {
      assert Elements(component[..0]) == {};
      EmptyScope(g, db);
    } else {
      RowProductSound(g, db, component, k - 1);
      var v, rows := component[k - 1], RowCounts(g, component);
      var before := Elements(component[..k - 1]);
      assert v in component;
      assert component[..k] == component[..k - 1] + [v];
      assert Elements(component[..k]) == before + {v};
      assert forall w | w in before :: w in component;
      AttachFree(g, db, before, v);
      assert rows[..k] == rows[..k - 1] + [rows[k - 1]];
      ProductOfConcat(rows[..k - 1], [rows[k - 1]]);
      assert Product([rows[k - 1]]) == rows[k - 1];
      MulMonotone(JoinSize(g, db, before), rows[k - 1], Product(rows[..k - 1]), rows[k - 1]);
    }
  }

  lemma WholeRowProductSound(g: JoinGraph, db: Database, component: seq<nat>)
    requires Consistent(g, db) && IsScope(g, component)
    ensures JoinSize(g, db, Elements(component)) <= Product(RowCounts(g, component))
  {
    RowProductSound(g, db, component, |component|);
    assert component[..|component|] == component;
    assert RowCounts(g, component)[..|component|] == RowCounts(g, component);
  }

  /** A single relation, as a scope, has at most its row count of tuples. */
  lemma SingleSound(g: JoinGraph, db: Database, v: nat)
    requires Consistent(g, db) && v < g.Size()
    ensures JoinSize(g, db, Elements([v])) <= g.Rows(v)
  {
    WholeRowProductSound(g, db, [v]);
    assert RowCounts(g, [v]) == [g.Rows(v)];
    assert Product([g.Rows(v)]) == g.Rows(v);
  }

  lemma {:induction false} BestOverSound(g: JoinGraph, db: Database, component: seq<nat>, k: nat)
    requires g.Valid() && Consistent(g, db) && IsScope(g, component) && k <= |component|
    ensures Min(JoinSize(g, db, Elements(component)), U64_MAX) <= BestOver(g, component, k)
  {
    if k == 0 {
      WholeRowProductSound(g, db, component);
    } else {
      BestOverSound(g, db, component, k - 1);
      var root := component[k - 1];
      assert root in component;
      SingleSound(g, db, root);
      GrowSound(g, db, component, [root], g.Rows(root));
    }
  }

  lemma ComponentSound(g: JoinGraph, db: Database, component: seq<nat>)
    requires g.Valid() && Consistent(g, db) && IsScope(g, component) && component != []
    ensures Min(JoinSize(g, db, Elements(component)), U64_MAX) <= ComponentBound(g, component)
  {
    if |component| == 1 {
      assert component == [component[0]] && component[0] in component;
      SingleSound(g, db, component[0]);
    } else {
      BestOverSound(g, db, component, |component|);
    }
  }

  /** Every candidate only lowers the bound: from k roots it is at most each of them. */
  lemma {:induction false} BestOverIsLeast(g: JoinGraph, component: seq<nat>, k: nat)
    requires g.Valid() && IsScope(g, component) && k <= |component|
    ensures BestOver(g, component, k) <= Clamp(Product(RowCounts(g, component)))
    ensures forall i | 0 <= i < k ::
              component[i] in component &&
              BestOver(g, component, k) <= Grow(g, component, [component[i]], g.Rows(component[i]))
    ensures BestOver(g, component, k) == Clamp(Product(RowCounts(g, component))) ||
            exists i :: 0 <= i < k && component[i] in component &&
                        BestOver(g, component, k) == Grow(g, component, [component[i]], g.Rows(component[i]))
  {
    if k > 0 {
      BestOverIsLeast(g, component, k - 1);
      assert component[k - 1] in component;
    }
  }

  lemma RootBoundsComponent(g: JoinGraph, component: seq<nat>, root: nat)
    requires g.Valid() && IsScope(g, component) && root in component
    ensures if |component| == 1 then ComponentBound(g, component) == g.Rows(root)
            else ComponentBound(g, component) <= Grow(g, component, [root], g.Rows(root))
  {
    BestOverIsLeast(g, component, |component|);
    var i :| 0 <= i < |component| && component[i] == root;
  }

  /** Within one component the ceiling never exceeds the row product, zero rows included. */
  lemma ComponentWithinProduct(g: JoinGraph, component: seq<nat>)
    requires g.Valid() && IsScope(g, component) && component != []
    ensures ComponentBound(g, component) <= Clamp(Product(RowCounts(g, component)))
  {
    BestOverIsLeast(g, component, |component|);
    if |component| == 1 {
      assert component[0] in component;
      assert RowCounts(g, component) == [g.Rows(component[0])];
      assert Product([g.Rows(component[0])]) == g.Rows(component[0]);
    }
  }

  // All components.

  lemma PartitionParts(g: JoinGraph, comps: seq<seq<nat>>)
    requires IsPartition(g, comps)
    ensures AllScopes(g, comps)
    ensures forall c | 0 <= c < |comps| :: IsComponent(g, comps[c])
  {
    forall c | 0 <= c < |comps| ensures IsComponent(g, comps[c]) {
      var component := comps[c];
      forall x: nat, y: nat | x in component && Connected(g.edges, x, y) && y < g.Size()
        ensures y in component
      {
        assert Placed(comps, y);
      }
    }
  }

  ghost function UnionTo(comps: seq<seq<nat>>, k: nat): set<nat>
    requires k <= |comps|
  {
    if k == 0 then {} else UnionTo(comps, k - 1) + Elements(comps[k - 1])
  }

  lemma {:induction false} UnionToMembers(comps: seq<seq<nat>>, k: nat)
    requires k <= |comps|
    ensures forall v :: v in UnionTo(comps, k) <==> exists c :: 0 <= c < k && v in comps[c]
  {
    if k > 0 {
      UnionToMembers(comps, k - 1);
    }
  }

  ghost function ComponentSizes(g: JoinGraph, db: Database, comps: seq<seq<nat>>): (sizes: seq<nat>)
    ensures |sizes| == |comps|
  {
    seq(|comps|, c requires 0 <= c < |comps| => JoinSize(g, db, Elements(comps[c])))
  }

  lemma PartsAreUnlinked(g: JoinGraph, comps: seq<seq<nat>>, k: nat)
    requires g.Valid() && IsPartition(g, comps) && k < |comps|
    ensures UnionTo(comps, k) !! Elements(comps[k])
    ensures NoEdgeBetween(g, UnionTo(comps, k), Elements(comps[k]))
  {
    UnionToMembers(comps, k);
    forall v: nat | v in UnionTo(comps, k) && v in Elements(comps[k]) ensures false {
      ConnectedReflexive(g.edges, v);
    }
    forall e | e in g.edges
      ensures !(e.left in UnionTo(comps, k) && e.right in Elements(comps[k]))
      ensures !(e.left in Elements(comps[k]) && e.right in UnionTo(comps, k))
    {
      ConnectedEdge(g.edges, e);
    }
  }

  lemma {:induction false} PrefixFactors(g: JoinGraph, db: Database, comps: seq<seq<nat>>, k: nat)
    requires g.Valid() && |db| == g.Size() && IsPartition(g, comps) && k <= |comps|
    ensures JoinSize(g, db, UnionTo(comps, k)) == Product(ComponentSizes(g, db, comps)[..k])
  {
    var sizes := ComponentSizes(g, db, comps);
    if k == 0 {
      EmptyScope(g, db);
    } else {
      PrefixFactors(g, db, comps, k - 1);
      UnionToMembers(comps, k - 1);
      PartsAreUnlinked(g, comps, k - 1);
      UnlinkedProduct(g, db, UnionTo(comps, k - 1), Elements(comps[k - 1]));
      assert sizes[..k] == sizes[..k - 1] + [sizes[k - 1]];
      ProductOfConcat(sizes[..k - 1], [sizes[k - 1]]);
      assert Product([sizes[k - 1]]) == sizes[k - 1];
    }
  }

  /** The join is the product of the joins over the components. */
  lemma JoinFactors(g: JoinGraph, db: Database, comps: seq<seq<nat>>)
    requires g.Valid() && |db| == g.Size() && IsPartition(g, comps)
    ensures |Join(g, db)| == Product(ComponentSizes(g, db, comps))
  {
    PrefixFactors(g, db, comps, |comps|);
    UnionToMembers(comps, |comps|);
    forall v: nat ensures v in UnionTo(comps, |comps|) <==> v < |db| {
      if v < |db| {
        assert Placed(comps, v);
      }
    }
    assert UnionTo(comps, |comps|) == Below(|db|);
    var sizes := ComponentSizes(g, db, comps);
    assert sizes[..|comps|] == sizes;
  }

  /** The ceiling that results from a partition into components. */
  function CeilingOver(g: JoinGraph, comps: seq<seq<nat>>): u64
    requires g.Valid() && AllScopes(g, comps)
  {
    EarlyExitProduct(1, ComponentBounds(g, comps))
  }

  /** No consistent instance joins to more tuples than the ceiling, up to u64 saturation. */
  lemma CeilingOverSound(g: JoinGraph, db: Database, comps: seq<seq<nat>>)
    requires g.Valid() && Consistent(g, db) && IsPartition(g, comps) && AllScopes(g, comps)
    ensures Min(|Join(g, db)|, U64_MAX) <= CeilingOver(g, comps)
  {
    JoinFactors(g, db, comps);
    var sizes, bounds := ComponentSizes(g, db, comps), ComponentBounds(g, comps);
    forall c | 0 <= c < |comps| ensures Min(sizes[c], U64_MAX) <= bounds[c] {
      ComponentSound(g, db, comps[c]);
    }
    EarlyExitCovers(1, 1, sizes, bounds);
  }

  /** The bounds of the components in the order in which they are listed. */
  function BoundsOf(g: JoinGraph): (bounds: seq<u64>)
    requires g.Valid()
    ensures AllScopes(g, ComponentsOf(g)) && bounds == ComponentBounds(g, ComponentsOf(g))
  {
    ComponentsArePartition(g);
    PartitionParts(g, ComponentsOf(g));
    ComponentBounds(g, ComponentsOf(g))
  }

  /** The join ceiling of a graph. */
  function CeilingOf(g: JoinGraph): u64
    requires g.Valid()
  {
    if g.relations == [] then 0 else EarlyExitProduct(1, BoundsOf(g))
  }

  lemma CeilingSound(g: JoinGraph, db: Database)
    requires g.Valid() && Consistent(g, db) && g.relations != []
    ensures Min(|Join(g, db)|, U64_MAX) <= CeilingOf(g)
  {
    ComponentsArePartition(g);
    assert BoundsOf(g) == ComponentBounds(g, ComponentsOf(g));
    CeilingOverSound(g, db, ComponentsOf(g));
  }

  // The loops.

  method ComponentCeiling(g: JoinGraph, component: seq<nat>) returns (best: u64)
    requires g.Valid() && IsScope(g, component) && component != []
    ensures best == ComponentBound(g, component)
  {
    var rows := RowCounts(g, component);
    best := ProductBoundCeiling(rows);
    assert component[0] in component;
    if |component| == 1 {
      return g.Rows(component[0]);
    }
    for k := 0 to |component|
      invariant best == BestOver(g, component, k)
    {
      assert component[k] in component;
      var candidate := SpanningTreeCeiling(g, component, component[k]);
      if candidate < best {
        best := candidate;
      }
    }
  }

  /** An inclusive ceiling on the join output of every database the statistics describe. */
  method JoinCeiling(g: JoinGraph) returns (ceiling: u64)
    requires g.Valid()
    ensures ceiling == CeilingOf(g)
    ensures g.relations != [] ==>
              forall db | Consistent(g, db) :: Min(|Join(g, db)|, U64_MAX) <= ceiling
  {
    if g.relations == [] {
      return 0;
    }
    forall db | Consistent(g, db) ensures Min(|Join(g, db)|, U64_MAX) <= CeilingOf(g) {
      CeilingSound(g, db);
    }
    var components := Components(g);
    ghost var bounds := BoundsOf(g);
    assert bounds[0..] == bounds;

    var total: u128 := 1;
    for c := 0 to |components|
      invariant total <= U64_MAX
      invariant EarlyExitProduct(total, bounds[c..]) == CeilingOf(g)
    {
      var componentCeiling := ComponentCeiling(g, components[c]);
      assert bounds[c..][0] == componentCeiling && bounds[c..][1..] == bounds[c + 1..];
      WideProductIsExact(total, componentCeiling);
      total := SaturatingMul128(total, componentCeiling);
      if total >= U64_MAX {
        return U64_MAX;
      }
    }
    ceiling := total;
  }
}
