/**
  The legacy interface, row counts plus joined pairs: `degree_graph` and the bounds
  built on it (`ChainBound`, `LpJoinBound`).
 */
module LegacyBounds {
  import opened Machine
  import opened Counting
  import opened Degree
  import opened Instances
  import opened DegreeStatistics
  import opened Saturation
  import opened SpanningTree
  import opened UnionFind
  import opened Ceiling
  import opened ProductComparison
  import opened Tightness

  type Pair = (nat, nat)

  predicate Usable(n: nat, pair: Pair) {
    pair.0 < n && pair.1 < n && pair.0 != pair.1
  }

  /** Each predicate introduces an attribute numbered by its position, truncated to 32 bits. */
  function AttributeOf(k: nat): AttributeId {
    k % U32_SPAN
  }

  function DegreeFrom(relations: seq<u64>, distinct: Option<seq<u64>>, v: nat): AttributeDegree
    requires v < |relations|
  {
    if distinct.Some? && v < |distinct.value| then FromDistinct(relations[v], distinct.value[v])
    else Unknown(relations[v])
  }

  /** The attributes of the first k usable predicates that touch relation v. */
  ghost function Touched(n: nat, pairs: seq<Pair>, v: nat, k: nat): set<AttributeId>
    requires k <= |pairs|
  {
    set i | i in Below(k) && Usable(n, pairs[i]) && (pairs[i].0 == v || pairs[i].1 == v) :: AttributeOf(i)
  }

  ghost function Described(relations: seq<u64>, pairs: seq<Pair>, distinct: Option<seq<u64>>, v: nat, k: nat): JoinRelation
    requires v < |relations| && k <= |pairs|
  {
    JoinRelation(relations[v],
                 map a | a in Touched(|relations|, pairs, v, k) :: DegreeFrom(relations, distinct, v))
  }

  ghost function UsableEdges(n: nat, pairs: seq<Pair>, k: nat): (edges: seq<JoinEdge>)
    requires k <= |pairs|
    ensures forall e :: e in edges <==>
                        exists i :: 0 <= i < k && Usable(n, pairs[i]) && e == JoinEdge(pairs[i].0, pairs[i].1, AttributeOf(i))
  {
    if k == 0 then []
    else
      var edges := UsableEdges(n, pairs, k - 1);
      if Usable(n, pairs[k - 1]) then
        edges + [JoinEdge(pairs[k - 1].0, pairs[k - 1].1, AttributeOf(k - 1))]
      else edges
  }

  /** The join graph the legacy input stands for. */
  ghost function LegacyGraph(relations: seq<u64>, pairs: seq<Pair>, distinct: Option<seq<u64>>): (g: JoinGraph)
    ensures g.Valid() && g.Size() == |relations|
  {
    JoinGraph(seq(|relations|, v requires 0 <= v < |relations| => Described(relations, pairs, distinct, v, |pairs|)),
              UsableEdges(|relations|, pairs, |pairs|))
  }

  lemma TouchMore(n: nat, pairs: seq<Pair>, v: nat, k: nat)
    requires k < |pairs|
    ensures Touched(n, pairs, v, k + 1) ==
            Touched(n, pairs, v, k) +
            if Usable(n, pairs[k]) && (pairs[k].0 == v || pairs[k].1 == v) then {AttributeOf(k)} else {}
  {
  }

  method AttachDegrees(relations: seq<u64>, pairs: seq<Pair>, distinct: Option<seq<u64>>)
    returns (built: seq<JoinRelation>)
    ensures |built| == |relations|
    ensures forall v | 0 <= v < |built| :: built[v] == Described(relations, pairs, distinct, v, |pairs|)
  {
    var n := |relations|;
    built := seq(n, v requires 0 <= v < n => JoinRelation.New(relations[v]));
    for k := 0 to |pairs|
      invariant |built| == n
      invariant forall v | 0 <= v < n :: built[v] == Described(relations, pairs, distinct, v, k)
    {
      forall v | 0 <= v < n ensures Described(relations, pairs, distinct, v, k + 1) ==
        if Usable(n, pairs[k]) && (pairs[k].0 == v || pairs[k].1 == v)
        then Described(relations, pairs, distinct, v, k).WithDegree(AttributeOf(k), DegreeFrom(relations, distinct, v))
        else Described(relations, pairs, distinct, v, k)
      {
        TouchMore(n, pairs, v, k);
      }
      if !Usable(n, pairs[k]) {
        continue;
      }
      var (i, j) := pairs[k];
      built := built[i := built[i].WithDegree(AttributeOf(k), DegreeFrom(relations, distinct, i))];
      built := built[j := built[j].WithDegree(AttributeOf(k), DegreeFrom(relations, distinct, j))];
    }
  }

  method DegreeGraph(relations: seq<u64>, pairs: seq<Pair>, distinct: Option<seq<u64>>) returns (graph: JoinGraph)
    ensures graph == LegacyGraph(relations, pairs, distinct)
  {
    var built := AttachDegrees(relations, pairs, distinct);
    graph := JoinGraph.New(built);
    for k := 0 to |pairs|
      invariant graph == JoinGraph(built, UsableEdges(|relations|, pairs, k))
    {
      graph := graph.WithEdge(pairs[k].0, pairs[k].1, AttributeOf(k));
    }
    assert graph.relations == LegacyGraph(relations, pairs, distinct).relations;
  }

  // What the legacy input says about a database, and the join it stands for.

  /** The predicate compares v with another of the n relations. */
  ghost predicate Compares(n: nat, pair: Pair, v: nat) {
    exists w: nat :: v < n && w < n && v != w && (pair == (v, w) || pair == (w, v))
  }

  /** Each supplied count is a floor on the distinct values of every join column of its relation. */
  ghost predicate CountsHold(relations: seq<u64>, pairs: seq<Pair>, distinct: Option<seq<u64>>, db: Database) {
    && |db| == |relations|
    && (forall v | 0 <= v < |db| :: |db[v]| <= relations[v])
    && (distinct.Some? ==>
          forall v, i | 0 <= v < |db| && v < |distinct.value| && 0 <= i < |pairs| && Compares(|db|, pairs[i], v) ::
            distinct.value[v] <= |DistinctValues(db[v], i % 0x1_0000_0000)|)
  }

  /** One row of every relation, such that each usable predicate's two columns agree. */
  ghost predicate IsResult(pairs: seq<Pair>, db: Database, t: Tuple) {
    && Covers(db, Below(|db|), t)
    && forall i | 0 <= i < |pairs| && Compares(|db|, pairs[i], pairs[i].0) ::
         var (u, v) := pairs[i]; RowsAgree(db, i % 0x1_0000_0000, u, t[u], v, t[v])
  }

  ghost function LegacyJoin(pairs: seq<Pair>, db: Database): set<Tuple> {
    set t | t in Choices(db, |db|, Below(|db|)) && IsResult(pairs, db, t)
  }

  lemma LegacyJoinIsJoin(relations: seq<u64>, pairs: seq<Pair>, distinct: Option<seq<u64>>, db: Database)
    requires |db| == |relations|
    ensures LegacyJoin(pairs, db) == Join(LegacyGraph(relations, pairs, distinct), db)
  {
    var g := LegacyGraph(relations, pairs, distinct);
    PartialJoinMembers(g, db, Below(|db|));
    assert (set v | v in Below(|db|) && v < |db|) == Below(|db|);
    forall t ensures t in LegacyJoin(pairs, db) <==> t in Join(g, db) {
      ChoicesMembers(db, |db|, Below(|db|), t);
      if t in LegacyJoin(pairs, db) {
        forall e | e in g.edges ensures Holds(db, e, t) {
          var i :| 0 <= i < |pairs| && Usable(|db|, pairs[i]) && e == JoinEdge(pairs[i].0, pairs[i].1, AttributeOf(i));
          assert Compares(|db|, pairs[i], pairs[i].0);
        }
      }
      if t in Join(g, db) {
        forall i | 0 <= i < |pairs| && Compares(|db|, pairs[i], pairs[i].0)
          ensures var (u, v) := pairs[i]; RowsAgree(db, i % 0x1_0000_0000, u, t[u], v, t[v])
        {
          var e := JoinEdge(pairs[i].0, pairs[i].1, AttributeOf(i));
          assert e in g.edges;
          assert Holds(db, e, t);
        }
      }
    }
  }

  /** Honest counts give honest degrees. */
  lemma CountsAreConsistent(relations: seq<u64>, pairs: seq<Pair>, distinct: Option<seq<u64>>, db: Database)
    requires CountsHold(relations, pairs, distinct, db)
    ensures Consistent(LegacyGraph(relations, pairs, distinct), db)
  {
    var g := LegacyGraph(relations, pairs, distinct);
    forall v | 0 <= v < |db| ensures Describes(g.relations[v], db[v]) {
      forall a, value | a in g.relations[v].degrees
        ensures |RowsWith(db[v], a, value)| <= g.relations[v].degrees[a].maxDegree
      {
        if distinct.Some? && v < |distinct.value| {
          var i: nat :| i < |pairs| && Usable(|db|, pairs[i]) && (pairs[i].0 == v || pairs[i].1 == v) && a == AttributeOf(i);
          assert pairs[i] == (v, pairs[i].1) || pairs[i] == (pairs[i].0, v);
          assert Compares(|db|, pairs[i], v);
          FromDistinctSound(db[v], a, value, relations[v], distinct.value[v]);
        } else {
          BoundedCount(RowsWith(db[v], a, value), |db[v]|);
        }
      }
    }
  }

  // Where supplied counts lower the bound.

  /** How many rows can share a key, by the supplied count: usable only if positive and at most the row count. */
  ghost function RowsPerKey(relations: seq<u64>, distinct: Option<seq<u64>>, v: nat): u64
    requires v < |relations|
  {
    if distinct.Some? && v < |distinct.value| && 1 <= distinct.value[v] <= relations[v]
    then relations[v] - distinct.value[v] + 1
    else relations[v]
  }

  /** Whatever the attribute, an end of an edge costs its rows per key. */
  lemma EdgeCosts(relations: seq<u64>, pairs: seq<Pair>, distinct: Option<seq<u64>>, e: JoinEdge)
    requires e in LegacyGraph(relations, pairs, distinct).edges
    ensures var g := LegacyGraph(relations, pairs, distinct);
            && e.left < |relations| && e.right < |relations|
            && Costs(g.relations[e.left], e.attribute, RowsPerKey(relations, distinct, e.left))
            && Costs(g.relations[e.right], e.attribute, RowsPerKey(relations, distinct, e.right))
  {
    var n := |relations|;
    var i: nat :| i < |pairs| && Usable(n, pairs[i]) && e == JoinEdge(pairs[i].0, pairs[i].1, AttributeOf(i));
    assert i in Below(|pairs|);
    assert e.attribute in Touched(n, pairs, e.left, |pairs|);
    assert e.attribute in Touched(n, pairs, e.right, |pairs|);
  }

  lemma EdgeOf(relations: seq<u64>, pairs: seq<Pair>, distinct: Option<seq<u64>>, i: nat, v: nat)
    requires i < |pairs| && Compares(|relations|, pairs[i], v)
    ensures JoinEdge(pairs[i].0, pairs[i].1, AttributeOf(i)) in LegacyGraph(relations, pairs, distinct).edges
  {
  }

  /** The least of the product of two relations and either's rows times the other's rows per key. */
  ghost function TwoRelationBound(relations: seq<u64>, distinct: Option<seq<u64>>): nat
    requires |relations| == 2
  {
    var r0: nat, r1: nat := relations[0], relations[1];
    Min(r0 * r1, Min(r0 * RowsPerKey(relations, distinct, 1), r1 * RowsPerKey(relations, distinct, 0)))
  }

  lemma TwoRelations(relations: seq<u64>, pairs: seq<Pair>, distinct: Option<seq<u64>>, i: nat)
    requires |relations| == 2 && i < |pairs| && Compares(2, pairs[i], 0)
    ensures CeilingOf(LegacyGraph(relations, pairs, distinct)) == Clamp(TwoRelationBound(relations, distinct))
  {
    var g := LegacyGraph(relations, pairs, distinct);
    EdgeOf(relations, pairs, distinct, i, 0);
    var e := JoinEdge(pairs[i].0, pairs[i].1, AttributeOf(i));
    forall other | other in g.edges
      ensures Costs(g.relations[0], other.attribute, RowsPerKey(relations, distinct, 0))
      ensures Costs(g.relations[1], other.attribute, RowsPerKey(relations, distinct, 1))
    {
      EdgeCosts(relations, pairs, distinct, other);
    }
    assert e in g.edges;
    TwoRelationCeiling(g, RowsPerKey(relations, distinct, 0), RowsPerKey(relations, distinct, 1));
  }

  /** A way from one relation to another over usable predicates. */
  ghost predicate IsPairPath(n: nat, pairs: seq<Pair>, path: seq<nat>) {
    path != [] && forall k: nat | k < |path| - 1 :: ComparesBoth(n, pairs, path[k], path[k + 1])
  }

  ghost predicate ComparesBoth(n: nat, pairs: seq<Pair>, x: nat, y: nat) {
    x < n && y < n && x != y && ((x, y) in pairs || (y, x) in pairs)
  }

  ghost predicate Reaches(n: nat, pairs: seq<Pair>, root: nat, v: nat) {
    exists path :: IsPairPath(n, pairs, path) && path[0] == root && path[|path| - 1] == v
  }

  /** Every relation is reached from the root, and every other one has as many keys as rows. */
  ghost predicate KeyedAround(relations: seq<u64>, pairs: seq<Pair>, distinct: Option<seq<u64>>, root: nat) {
    && root < |relations|
    && (forall v: nat | v < |relations| :: Reaches(|relations|, pairs, root, v))
    && (forall v: nat | v < |relations| && v != root ::
          distinct.Some? && v < |distinct.value| && distinct.value[v] == relations[v])
  }

  lemma ReachesConnected(relations: seq<u64>, pairs: seq<Pair>, distinct: Option<seq<u64>>, root: nat, v: nat)
    requires Reaches(|relations|, pairs, root, v)
    ensures Connected(LegacyGraph(relations, pairs, distinct).edges, root, v)
  {
    var n, edges := |relations|, LegacyGraph(relations, pairs, distinct).edges;
    var path :| IsPairPath(n, pairs, path) && path[0] == root && path[|path| - 1] == v;
    forall k: nat | k < |path| - 1 ensures Adjacent(edges, path[k], path[k + 1]) {
      assert ComparesBoth(n, pairs, path[k], path[k + 1]);
      var pair := if (path[k], path[k + 1]) in pairs then (path[k], path[k + 1]) else (path[k + 1], path[k]);
      var i: nat :| i < |pairs| && pairs[i] == pair;
      assert Compares(n, pairs[i], path[k]);
      EdgeOf(relations, pairs, distinct, i, path[k]);
      assert JoinEdge(pair.0, pair.1, AttributeOf(i)) in edges;
    }
    assert IsPath(edges, path);
  }

  /** Keys everywhere but at the root: no more tuples than the root has rows. */
  lemma KeyedRelations(relations: seq<u64>, pairs: seq<Pair>, distinct: Option<seq<u64>>, root: nat)
    requires KeyedAround(relations, pairs, distinct, root)
    ensures CeilingOf(LegacyGraph(relations, pairs, distinct)) <= relations[root]
  {
    var g := LegacyGraph(relations, pairs, distinct);
    forall v: nat | v < g.Size() ensures Connected(g.edges, root, v) {
      ReachesConnected(relations, pairs, distinct, root, v);
    }
    forall e | e in g.edges
      ensures e.left != root ==> IsKey(g.relations[e.left], e.attribute)
      ensures e.right != root ==> IsKey(g.relations[e.right], e.attribute)
    {
      EdgeCosts(relations, pairs, distinct, e);
    }
    KeyedCeiling(g, root);
    assert g.Rows(root) == relations[root];
  }

  /**
    What supplied counts are worth: two compared relations come to exactly the bound above,
    and a connected query with keys everywhere but at the root to at most the root's rows.
   */
  ghost predicate IsTight(relations: seq<u64>, pairs: seq<Pair>, distinct: Option<seq<u64>>, ceiling: u64) {
    && (|relations| == 2 && (exists i :: 0 <= i < |pairs| && Compares(2, pairs[i], 0)) ==>
          ceiling == Clamp(TwoRelationBound(relations, distinct)))
    && (forall root: nat | KeyedAround(relations, pairs, distinct, root) :: ceiling <= relations[root])
  }

  lemma GraphIsTight(relations: seq<u64>, pairs: seq<Pair>, distinct: Option<seq<u64>>)
    ensures IsTight(relations, pairs, distinct, CeilingOf(LegacyGraph(relations, pairs, distinct)))
  {
    if |relations| == 2 && exists i :: 0 <= i < |pairs| && Compares(2, pairs[i], 0) {
      var i: nat :| i < |pairs| && Compares(2, pairs[i], 0);
      TwoRelations(relations, pairs, distinct, i);
    }
    forall root: nat | KeyedAround(relations, pairs, distinct, root)
      ensures CeilingOf(LegacyGraph(relations, pairs, distinct)) <= relations[root]
    {
      KeyedRelations(relations, pairs, distinct, root);
    }
  }

  lemma ReachesNoOther(n: nat, pairs: seq<Pair>, root: nat, v: nat)
    requires pairs == [] && Reaches(n, pairs, root, v)
    ensures v == root
  {
    var path :| IsPairPath(n, pairs, path) && path[0] == root && path[|path| - 1] == v;
    assert |path| > 1 ==> ComparesBoth(n, pairs, path[0], path[0 + 1]);
  }

  /** Without predicates only a single relation is reached from a root. */
  lemma ProductIsTight(relations: seq<u64>, distinct: Option<seq<u64>>)
    ensures IsTight(relations, [], distinct, Clamp(Product(relations)))
  {
    forall root: nat | KeyedAround(relations, [], distinct, root) ensures Clamp(Product(relations)) <= relations[root] {
      assert Reaches(|relations|, [], root, |relations| - 1) && Reaches(|relations|, [], root, 0);
      ReachesNoOther(|relations|, [], root, |relations| - 1);
      ReachesNoOther(|relations|, [], root, 0);
      assert relations == [relations[0]];
      assert Product([relations[0]]) == relations[0];
    }
  }

  lemma LegacySound(relations: seq<u64>, pairs: seq<Pair>, distinct: Option<seq<u64>>, db: Database, ceiling: nat)
    requires CountsHold(relations, pairs, distinct, db)
    requires var g := LegacyGraph(relations, pairs, distinct);
             Consistent(g, db) ==> Min(|Join(g, db)|, U64_MAX) <= ceiling
    ensures Min(|LegacyJoin(pairs, db)|, U64_MAX) <= ceiling
  {
    CountsAreConsistent(relations, pairs, distinct, db);
    LegacyJoinIsJoin(relations, pairs, distinct, db);
  }

  /** Without predicates the join is bounded by the product of the row counts. */
  lemma NoPredicatesSound(relations: seq<u64>, db: Database)
    requires CountsHold(relations, [], None, db)
    ensures |LegacyJoin([], db)| <= Product(relations)
  {
    var g := LegacyGraph(relations, [], None);
    CountsAreConsistent(relations, [], None, db);
    LegacyJoinIsJoin(relations, [], None, db);
    var all := seq(|db|, (i: nat) => i);
    forall v ensures v in Elements(all) <==> v in Below(|db|) {
      if v in Below(|db|) {
        assert all[v] == v;
      }
    }
    assert Elements(all) == Below(|db|);
    WholeRowProductSound(g, db, all);
    assert RowCounts(g, all) == relations;
  }

  lemma LegacyRows(relations: seq<u64>, pairs: seq<Pair>, distinct: Option<seq<u64>>)
    ensures AllRows(LegacyGraph(relations, pairs, distinct)) == relations
  {
  }

  /**
    `ChainBound::ceiling` and `LpJoinBound::ceiling_with_distinct` (counts supplied) and
    `LpJoinBound::ceiling` (none).  Never below the true join, and, unless a relation is
    empty, never above the Cartesian product; without counts it is exactly that product.
   */
  method LegacyCeiling(relations: seq<u64>, pairs: seq<Pair>, distinct: Option<seq<u64>>) returns (ceiling: u64)
    ensures relations == [] ==> ceiling == 0
    ensures relations != [] ==>
              forall db | CountsHold(relations, pairs, distinct, db) ::
                Min(|LegacyJoin(pairs, db)|, U64_MAX) <= ceiling
    ensures relations != [] && 0 !in relations ==> ceiling <= Clamp(Product(relations))
    ensures relations != [] && 0 !in relations && distinct.None? ==> ceiling == Clamp(Product(relations))
    ensures relations != [] && pairs == [] ==> ceiling == Clamp(Product(relations))
    ensures relations != [] && pairs != [] ==> ceiling == CeilingOf(LegacyGraph(relations, pairs, distinct))
    ensures IsTight(relations, pairs, distinct, ceiling)
  {
    if relations == [] {
      return 0;
    }
    if pairs == [] {
      ceiling := ProductBoundCeiling(relations);
      ProductIsTight(relations, distinct);
      forall db | CountsHold(relations, pairs, distinct, db)
        ensures Min(|LegacyJoin(pairs, db)|, U64_MAX) <= ceiling
      {
        NoPredicatesSound(relations, db);
      }
      return;
    }
    var graph := DegreeGraph(relations, pairs, distinct);
    ceiling := JoinCeiling(graph);
    forall db | CountsHold(relations, pairs, distinct, db)
      ensures Min(|LegacyJoin(pairs, db)|, U64_MAX) <= ceiling
    {
      LegacySound(relations, pairs, distinct, db, ceiling);
    }
    LegacyRows(relations, pairs, distinct);
    WithinProductIff(graph);
    GraphIsTight(relations, pairs, distinct);
    if distinct.None? {
      RowCountsAloneGiveTheProduct(graph);
    }
  }
}
