/** How the join ceiling compares with the Cartesian product of the row counts. */
module ProductComparison {
  import opened Machine
  import opened Counting
  import opened Degree
  import opened UnionFind
  import opened Saturation
  import opened SpanningTree
  import opened Ceiling

  function AllRows(g: JoinGraph): seq<u64> {
    seq(g.Size(), v requires 0 <= v < g.Size() => g.Rows(v))
  }

  /** The product of the row counts of the relations of a scope that lie below n. */
  ghost function ProductOver(g: JoinGraph, scope: set<nat>, n: nat): nat
    requires n <= g.Size()
  {
    if n == 0 then 1
    else (if n - 1 in scope then g.Rows(n - 1) else 1) * ProductOver(g, scope, n - 1)
  }

  lemma {:induction false} ProductOverUnion(g: JoinGraph, s: set<nat>, t: set<nat>, n: nat)
    requires n <= g.Size() && s !! t
    ensures ProductOver(g, s + t, n) == ProductOver(g, s, n) * ProductOver(g, t, n)
  {
    if n > 0 {
      ProductOverUnion(g, s, t, n - 1);
      var a := if n - 1 in s then g.Rows(n - 1) else 1;
      var b := if n - 1 in t then g.Rows(n - 1) else 1;
      Regroup(a, b, ProductOver(g, s, n - 1), ProductOver(g, t, n - 1));
    }
  }

  lemma Regroup(a: nat, b: nat, x: nat, y: nat)
    requires a == 1 || b == 1
    ensures (a * b) * (x * y) == (a * x) * (b * y)
  {
  }

  lemma {:induction false} ProductOverNone(g: JoinGraph, scope: set<nat>, n: nat)
    requires n <= g.Size() && forall v | v in scope :: v >= n
    ensures ProductOver(g, scope, n) == 1
  {
    if n > 0 {
      ProductOverNone(g, scope, n - 1);
    }
  }

  lemma {:induction false} ProductOverOne(g: JoinGraph, v: nat, n: nat)
    requires v < n <= g.Size()
    ensures ProductOver(g, {v}, n) == g.Rows(v)
  {
    if n - 1 == v {
      ProductOverNone(g, {v}, v);
    } else {
      ProductOverOne(g, v, n - 1);
    }
  }

  lemma {:induction false} ProductOverComponent(g: JoinGraph, component: seq<nat>, k: nat)
    requires IsScope(g, component) && k <= |component|
    ensures ProductOver(g, Elements(component[..k]), g.Size()) == Product(RowCounts(g, component)[..k])
  {
    var rows := RowCounts(g, component);
    if k == 0 {
      ProductOverNone(g, Elements(component[..0]), g.Size());
    } else {
      var v := component[k - 1];
      ProductOverComponent(g, component, k - 1);
      assert v in component;
      assert component[..k] == component[..k - 1] + [v];
      assert Elements(component[..k]) == Elements(component[..k - 1]) + {v};
      ProductOverUnion(g, Elements(component[..k - 1]), {v}, g.Size());
      ProductOverOne(g, v, g.Size());
      assert rows[..k] == rows[..k - 1] + [rows[k - 1]];
      ProductOfConcat(rows[..k - 1], [rows[k - 1]]);
      assert Product([rows[k - 1]]) == rows[k - 1];
    }
  }

  lemma {:induction false} ProductOverAll(g: JoinGraph, n: nat)
    requires n <= g.Size()
    ensures ProductOver(g, Below(g.Size()), n) == Product(AllRows(g)[..n])
  {
    if n > 0 {
      var rows := AllRows(g);
      ProductOverAll(g, n - 1);
      assert rows[..n] == rows[..n - 1] + [rows[n - 1]];
      ProductOfConcat(rows[..n - 1], [rows[n - 1]]);
      assert Product([rows[n - 1]]) == rows[n - 1];
    }
  }

  ghost function ComponentProducts(g: JoinGraph, comps: seq<seq<nat>>): (products: seq<nat>)
    requires AllScopes(g, comps)
    ensures |products| == |comps|
  {
    seq(|comps|, c requires 0 <= c < |comps| => Product(RowCounts(g, comps[c])))
  }

  lemma {:induction false} PrefixProducts(g: JoinGraph, comps: seq<seq<nat>>, k: nat)
    requires g.Valid() && IsPartition(g, comps) && AllScopes(g, comps) && k <= |comps|
    ensures ProductOver(g, UnionTo(comps, k), g.Size()) == Product(ComponentProducts(g, comps)[..k])
  {
    var products := ComponentProducts(g, comps);
    if k == 0 {
      ProductOverNone(g, {}, g.Size());
    } else {
      var component := comps[k - 1];
      PrefixProducts(g, comps, k - 1);
      PartsAreUnlinked(g, comps, k - 1);
      ProductOverUnion(g, UnionTo(comps, k - 1), Elements(component), g.Size());
      ProductOverComponent(g, component, |component|);
      assert component[..|component|] == component;
      assert RowCounts(g, component)[..|component|] == RowCounts(g, component);
      assert products[..k] == products[..k - 1] + [products[k - 1]];
      ProductOfConcat(products[..k - 1], [products[k - 1]]);
      assert Product([products[k - 1]]) == products[k - 1];
    }
  }

  /** Grouping the row counts by component does not change their product. */
  lemma ProductByComponents(g: JoinGraph, comps: seq<seq<nat>>)
    requires g.Valid() && IsPartition(g, comps) && AllScopes(g, comps)
    ensures Product(ComponentProducts(g, comps)) == Product(AllRows(g))
  {
    PrefixProducts(g, comps, |comps|);
    UnionToMembers(comps, |comps|);
    forall v: nat ensures v in UnionTo(comps, |comps|) <==> v < g.Size() {
      if v < g.Size() {
        assert Placed(comps, v);
      }
    }
    assert UnionTo(comps, |comps|) == Below(g.Size());
    ProductOverAll(g, g.Size());
    assert AllRows(g)[..g.Size()] == AllRows(g);
    assert ComponentProducts(g, comps)[..|comps|] == ComponentProducts(g, comps);
  }

  lemma ZeroRowGivesZeroBound(g: JoinGraph, comps: seq<seq<nat>>, v: nat)
    requires g.Valid() && IsPartition(g, comps) && AllScopes(g, comps)
    requires v < g.Size() && g.Rows(v) == 0
    ensures 0 in ComponentBounds(g, comps)
  {
    assert Placed(comps, v);
    var c :| 0 <= c < |comps| && v in comps[c];
    var i :| 0 <= i < |comps[c]| && comps[c][i] == v;
    assert RowCounts(g, comps[c])[i] == 0;
    ZeroFactor(RowCounts(g, comps[c]));
    ComponentWithinProduct(g, comps[c]);
    assert ComponentBounds(g, comps)[c] == 0;
  }

  lemma OverWithinProduct(g: JoinGraph, comps: seq<seq<nat>>)
    requires g.Valid() && IsPartition(g, comps) && AllScopes(g, comps)
    ensures CeilingOver(g, comps) <= Clamp(Product(AllRows(g))) <==>
            !(0 in AllRows(g) && FillsBeforeZero(1, ComponentBounds(g, comps)))
  {
    var bounds, products := ComponentBounds(g, comps), ComponentProducts(g, comps);
    EarlyExitExact(1, bounds);
    ProductByComponents(g, comps);
    if 0 in AllRows(g) {
      ZeroFactor(AllRows(g));
      var v :| 0 <= v < g.Size() && AllRows(g)[v] == 0;
      ZeroRowGivesZeroBound(g, comps, v);
      ZeroFactor(bounds);
    } else {
      forall c | 0 <= c < |comps| ensures bounds[c] <= products[c] && products[c] >= 1 {
        ComponentWithinProduct(g, comps[c]);
        forall i | 0 <= i < |comps[c]| ensures RowCounts(g, comps[c])[i] != 0 {
          assert comps[c][i] in comps[c];
          assert AllRows(g)[comps[c][i]] in AllRows(g);
        }
        PositiveProduct(RowCounts(g, comps[c]));
      }
      EarlyExitWithin(bounds, products);
    }
  }

  /**
    The ceiling stays within the Cartesian product except in one case: a relation is
    empty, and the bounds of earlier components filled a u64 before its zero was reached.
   */
  lemma WithinProductIff(g: JoinGraph)
    requires g.Valid()
    ensures CeilingOf(g) <= Clamp(Product(AllRows(g))) <==>
            !(0 in AllRows(g) && FillsBeforeZero(1, BoundsOf(g)))
  {
    ComponentsArePartition(g);
    assert BoundsOf(g) == ComponentBounds(g, ComponentsOf(g));
    OverWithinProduct(g, ComponentsOf(g));
  }

  /** Two unjoined relations, the first as large as can be and the second empty. */
  const FULL_THEN_EMPTY: JoinGraph := JoinGraph.New([JoinRelation.New(U64_MAX), JoinRelation.New(0)])

  /** On that graph the ceiling is u64::MAX although the product is 0. */
  lemma EarlyExitOvershoots()
    ensures CeilingOf(FULL_THEN_EMPTY) == U64_MAX
    ensures Clamp(Product(AllRows(FULL_THEN_EMPTY))) == 0
  {
    var g := FULL_THEN_EMPTY;
    assert RootsAfter(g, 0) == [0, 1];
    ListTwo();
    assert BoundsOf(g) == [U64_MAX, 0];
    assert AllRows(g)[1] == 0;
    ZeroFactor(AllRows(g));
  }

  lemma ListTwo()
    ensures ListClasses([0, 1], 2) == [[0], [1]]
  {
    ClassesOfTwo(0, 1);
    assert ListClasses([0, 1], 1) == [[0]];
  }

  lemma ClassesOfTwo(a: nat, b: nat)
    requires a != b
    ensures Class([a, b], a, 2) == [0] && Class([a, b], b, 2) == [1]
  {
    assert Class([a, b], a, 0) == Class([a, b], b, 0) == [];
    assert Class([a, b], a, 1) == [0] && Class([a, b], b, 1) == [];
  }

  /** An empty relation, one as large as can be, and one of a single row, joined to the empty one. */
  function EmptyFullOne(left: nat, right: nat): JoinGraph
    requires left < 3 && right < 3
  {
    JoinGraph.New([JoinRelation.New(0), JoinRelation.New(U64_MAX), JoinRelation.New(1)]).WithEdge(left, right, 0)
  }

  lemma ClassOfThree(root: seq<nat>, a: nat, r: nat)
    requires root == [a, 1, a] && a != 1
    ensures Class(root, r, 3) == if r == a then [0, 2] else if r == 1 then [1] else []
  {
    assert Class(root, r, 0) == [];
    assert Class(root, r, 1) == if r == a then [0] else [];
    assert Class(root, r, 2) == if r == a then [0] else if r == 1 then [1] else [];
  }

  lemma ListNext(root: seq<nat>, key: nat, before: seq<seq<nat>>, group: seq<nat>)
    requires ListClasses(root, key) == before && Class(root, key, |root|) == group
    ensures ListClasses(root, key + 1) == if group == [] then before else before + [group]
  {
  }

  lemma ListLastTwo(root: seq<nat>, n: nat, second: seq<nat>, third: seq<nat>)
    requires n == 3 == |root| && Class(root, 0, n) == []
    requires Class(root, 1, n) == second != [] && Class(root, 2, n) == third != []
    ensures ListClasses(root, n) == [second, third]
  {
    ListNext(root, n - 3, [], []);
    ListNext(root, n - 2, [], second);
    ListNext(root, n - 1, [second], third);
  }

  lemma ListFirstTwo(root: seq<nat>, n: nat, first: seq<nat>, second: seq<nat>)
    requires n == 3 == |root| && Class(root, 2, n) == []
    requires Class(root, 0, n) == first != [] && Class(root, 1, n) == second != []
    ensures ListClasses(root, n) == [first, second]
  {
    ListNext(root, n - 3, [], first);
    ListNext(root, n - 2, [first], second);
    ListNext(root, n - 1, [first, second], []);
  }

  /** The component of the edge hangs under its right end. */
  lemma ListByRightEnd(left: nat, right: nat)
    requires (left == 0 && right == 2) || (left == 2 && right == 0)
    ensures EmptyFullOne(left, right).Valid()
    ensures ComponentsOf(EmptyFullOne(left, right)) == if right == 0 then [[0, 2], [1]] else [[1], [0, 2]]
  {
    var g := EmptyFullOne(left, right);
    assert g.edges == [JoinEdge(left, right, 0)];
    assert RootsAfter(g, 0) == [0, 1, 2];
    assert RootsAfter(g, 1) == [right, 1, right];
    forall r: nat ensures Class([right, 1, right], r, 3) == if r == right then [0, 2] else if r == 1 then [1] else [] {
      ClassOfThree([right, 1, right], right, r);
    }
    if right == 0 {
      ListFirstTwo([right, 1, right], 3, [0, 2], [1]);
    } else {
      ListLastTwo([right, 1, right], 3, [1], [0, 2]);
    }
  }

  lemma EmptyComponent(g: JoinGraph)
    requires g.Valid() && g.Size() == 3 && g.Rows(0) == 0
    ensures ComponentBound(g, [0, 2]) == 0
  {
    ComponentWithinProduct(g, [0, 2]);
    assert RowCounts(g, [0, 2])[0] == 0;
    ZeroFactor(RowCounts(g, [0, 2]));
  }

  /**
    Which end of an edge is written first can decide it: the component hangs under the
    other end, and so is multiplied in before or after the large relation.
   */
  lemma EdgeDirectionDecides()
    ensures CeilingOf(EmptyFullOne(0, 2)) == U64_MAX
    ensures CeilingOf(EmptyFullOne(2, 0)) == 0
  {
    FullFirst(EmptyFullOne(0, 2));
    EmptyFirst(EmptyFullOne(2, 0));
  }

  lemma FullFirst(g: JoinGraph)
    requires g == EmptyFullOne(0, 2)
    ensures CeilingOf(g) == U64_MAX
  {
    ListByRightEnd(0, 2);
    assert BoundsOf(g)[0] == U64_MAX;
  }

  lemma EmptyFirst(g: JoinGraph)
    requires g == EmptyFullOne(2, 0)
    ensures CeilingOf(g) == 0
  {
    ListByRightEnd(2, 0);
    EmptyComponent(g);
    assert BoundsOf(g) == [0, U64_MAX];
  }
}
