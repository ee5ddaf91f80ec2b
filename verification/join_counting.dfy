/** How the number of partial result tuples grows as relations are joined in. */
module JoinCounting {
  import opened Counting
  import opened Degree
  import opened Instances

  ghost function JoinSize(g: JoinGraph, db: Database, scope: set<nat>): nat {
    |PartialJoin(g, db, scope)|
  }

  /** The rows of v with which a tuple can be extended. */
  ghost function Matches(g: JoinGraph, db: Database, t: Tuple, v: nat): set<nat>
    requires v < |db|
  {
    set r | r in Below(|db[v]|) && Satisfies(db, g.edges, Extend(t, v, r))
  }

  ghost predicate Linked(g: JoinGraph, u: nat, v: nat, attribute: AttributeId) {
    JoinEdge(u, v, attribute) in g.edges || JoinEdge(v, u, attribute) in g.edges
  }

  lemma DroppingKeepsEdges(g: JoinGraph, db: Database, t: Tuple, gone: set<nat>)
    requires Satisfies(db, g.edges, t)
    ensures Satisfies(db, g.edges, t - gone)
  {
  }

  lemma EmptyScope(g: JoinGraph, db: Database)
    ensures JoinSize(g, db, {}) == 1
  {
    PartialJoinMembers(g, db, {});
    var p := PartialJoin(g, db, {});
    assert Covers(db, {}, map[]) && Satisfies(db, g.edges, map[]);
    forall t | t in p ensures t == map[] {
      assert t.Keys == {};
    }
    assert p == {map[]};
  }

  /** The tuples over scope + {v} that extend t are as many as the rows of v matching t. */
  lemma ExtensionCount(g: JoinGraph, db: Database, scope: set<nat>, v: nat, t: Tuple)
    requires InScope(db, scope) && v < |db| && v !in scope
    requires t in PartialJoin(g, db, scope)
    ensures |Fibre(PartialJoin(g, db, scope + {v}), (x: Tuple) => x - {v}, t)| == |Matches(g, db, t, v)|
  {
    PartialJoinMembers(g, db, scope);
    PartialJoinMembers(g, db, scope + {v});
    var fibre := Fibre(PartialJoin(g, db, scope + {v}), (x: Tuple) => x - {v}, t);
    var rowOf := (x: Tuple) => if v in x then x[v] else 0;
    forall x | x in fibre ensures x == Extend(t, v, x[v]) && rowOf(x) in Matches(g, db, t, v) {
      assert x == Extend(x - {v}, v, x[v]);
    }
    forall r | r in Matches(g, db, t, v) ensures exists x :: x in fibre && rowOf(x) == r {
      var x := Extend(t, v, r);
      assert Covers(db, scope + {v}, x);
      assert x - {v} == t;
      assert x in fibre && rowOf(x) == r;
    }
    InjectionCount(fibre, Matches(g, db, t, v), rowOf);
  }

  /** Joining v in multiplies the number of tuples by something between lo and hi. */
  lemma AttachBounds(g: JoinGraph, db: Database, scope: set<nat>, v: nat, lo: nat, hi: nat)
    requires InScope(db, scope) && v < |db| && v !in scope
    requires forall t | t in PartialJoin(g, db, scope) :: lo <= |Matches(g, db, t, v)| <= hi
    ensures lo * JoinSize(g, db, scope) <= JoinSize(g, db, scope + {v}) <= hi * JoinSize(g, db, scope)
  {
    var small, large := PartialJoin(g, db, scope), PartialJoin(g, db, scope + {v});
    var drop := (x: Tuple) => x - {v};
    PartialJoinMembers(g, db, scope);
    PartialJoinMembers(g, db, scope + {v});
    forall x | x in large ensures drop(x) in small {
      DroppingKeepsEdges(g, db, x, {v});
      assert (x - {v}).Keys == scope;
    }
    forall t | t in small ensures lo <= |Fibre(large, drop, t)| <= hi {
      ExtensionCount(g, db, scope, v, t);
    }
    FibreBounds(large, small, drop, lo, hi);
  }

  /** If every tuple has exactly n matches, the count multiplies by n. */
  lemma AttachExact(g: JoinGraph, db: Database, scope: set<nat>, v: nat, n: nat)
    requires InScope(db, scope) && v < |db| && v !in scope
    requires forall t | t in PartialJoin(g, db, scope) :: |Matches(g, db, t, v)| == n
    ensures JoinSize(g, db, scope + {v}) == JoinSize(g, db, scope) * n
  {
    AttachBounds(g, db, scope, v, n, n);
  }

  /** A tuple that fixes u's row fixes the value v must carry on an attribute linking them. */
  lemma LinkedMatches(g: JoinGraph, db: Database, t: Tuple, u: nat, v: nat, attribute: AttributeId)
    requires Consistent(g, db) && u in t && v < |db| && u != v
    requires Linked(g, u, v, attribute)
    ensures |Matches(g, db, t, v)| <= g.relations[v].Degree(attribute).maxDegree
  {
    var matches := Matches(g, db, t, v);
    if matches != {} {
      var r0 :| r0 in matches;
      forall r | r in matches ensures RowsAgree(db, attribute, u, t[u], v, r) {
        var e := if JoinEdge(u, v, attribute) in g.edges then JoinEdge(u, v, attribute) else JoinEdge(v, u, attribute);
        assert Holds(db, e, Extend(t, v, r));
      }
      assert RowsAgree(db, attribute, u, t[u], v, r0);
      var value := db[u][t[u]][attribute];
      assert matches <= RowsWith(db[v], attribute, value);
      SubsetCount(matches, RowsWith(db[v], attribute, value));
      DegreeBoundsRows(g.relations[v], db[v], attribute, value);
    }
  }

  /** Joining v to the scope over a linking edge costs at most v's degree on its attribute. */
  lemma AttachLinked(g: JoinGraph, db: Database, scope: set<nat>, u: nat, v: nat, attribute: AttributeId)
    requires Consistent(g, db) && InScope(db, scope) && u in scope && v < |db| && v !in scope
    requires Linked(g, u, v, attribute)
    ensures JoinSize(g, db, scope + {v}) <= JoinSize(g, db, scope) * g.relations[v].Degree(attribute).maxDegree
  {
    PartialJoinMembers(g, db, scope);
    forall t | t in PartialJoin(g, db, scope)
      ensures 0 <= |Matches(g, db, t, v)| <= g.relations[v].Degree(attribute).maxDegree
    {
      LinkedMatches(g, db, t, u, v, attribute);
    }
    AttachBounds(g, db, scope, v, 0, g.relations[v].Degree(attribute).maxDegree);
  }

  /** Joining v in without any edge costs at most its row count. */
  lemma AttachFree(g: JoinGraph, db: Database, scope: set<nat>, v: nat)
    requires Consistent(g, db) && InScope(db, scope) && v < |db| && v !in scope
    ensures JoinSize(g, db, scope + {v}) <= JoinSize(g, db, scope) * g.Rows(v)
  {
    forall t | t in PartialJoin(g, db, scope) ensures 0 <= |Matches(g, db, t, v)| <= g.Rows(v) {
      BoundedCount(Matches(g, db, t, v), |db[v]|);
    }
    AttachBounds(g, db, scope, v, 0, g.Rows(v));
  }

  ghost predicate NoEdgeBetween(g: JoinGraph, s: set<nat>, t: set<nat>) {
    forall e | e in g.edges :: !(e.left in s && e.right in t) && !(e.left in t && e.right in s)
  }

  /** Tuples over two unlinked scopes combine freely. */
  lemma MergeTuples(g: JoinGraph, db: Database, s: set<nat>, t: set<nat>, x: Tuple, y: Tuple)
    requires InScope(db, s) && InScope(db, t) && s !! t && NoEdgeBetween(g, s, t)
    requires x in PartialJoin(g, db, s) && y in PartialJoin(g, db, t)
    ensures x + y in PartialJoin(g, db, s + t)
    ensures (x + y) - t == x && (x + y) - s == y
  {
    PartialJoinMembers(g, db, s);
    PartialJoinMembers(g, db, t);
    PartialJoinMembers(g, db, s + t);
    forall e | e in g.edges ensures Holds(db, e, x + y) {
      assert Holds(db, e, x) && Holds(db, e, y);
    }
    assert Covers(db, s + t, x + y);
  }

  /** Every tuple over two scopes is the union of its two halves. */
  lemma SplitTuple(g: JoinGraph, db: Database, s: set<nat>, t: set<nat>, x: Tuple)
    requires InScope(db, s) && InScope(db, t) && s !! t
    requires x in PartialJoin(g, db, s + t)
    ensures x - t in PartialJoin(g, db, s) && x - s in PartialJoin(g, db, t)
    ensures x == (x - t) + (x - s)
  {
    PartialJoinMembers(g, db, s);
    PartialJoinMembers(g, db, t);
    PartialJoinMembers(g, db, s + t);
    DroppingKeepsEdges(g, db, x, t);
    DroppingKeepsEdges(g, db, x, s);
    assert (x - t).Keys == s && (x - s).Keys == t;
  }

  lemma UnlinkedFibre(g: JoinGraph, db: Database, s: set<nat>, t: set<nat>, a: Tuple)
    requires InScope(db, s) && InScope(db, t) && s !! t && NoEdgeBetween(g, s, t)
    requires a in PartialJoin(g, db, s)
    ensures |Fibre(PartialJoin(g, db, s + t), (x: Tuple) => x - t, a)| == JoinSize(g, db, t)
  {
    var right := PartialJoin(g, db, t);
    var fibre := Fibre(PartialJoin(g, db, s + t), (x: Tuple) => x - t, a);
    var toRight := (x: Tuple) => x - s;
    forall x | x in fibre ensures toRight(x) in right && x == a + toRight(x) {
      SplitTuple(g, db, s, t, x);
    }
    forall b | b in right ensures exists x :: x in fibre && toRight(x) == b {
      MergeTuples(g, db, s, t, a, b);
      assert a + b in fibre && toRight(a + b) == b;
    }
    InjectionCount(fibre, right, toRight);
  }

  /** The join over two unlinked scopes is their Cartesian product. */
  lemma UnlinkedProduct(g: JoinGraph, db: Database, s: set<nat>, t: set<nat>)
    requires InScope(db, s) && InScope(db, t) && s !! t && NoEdgeBetween(g, s, t)
    ensures JoinSize(g, db, s + t) == JoinSize(g, db, s) * JoinSize(g, db, t)
  {
    var left, both := PartialJoin(g, db, s), PartialJoin(g, db, s + t);
    var toLeft := (x: Tuple) => x - t;
    forall x | x in both ensures toLeft(x) in left {
      SplitTuple(g, db, s, t, x);
    }
    forall a | a in left ensures |Fibre(both, toLeft, a)| == JoinSize(g, db, t) {
      UnlinkedFibre(g, db, s, t, a);
    }
    FibreBounds(both, left, toLeft, JoinSize(g, db, t), JoinSize(g, db, t));
  }
}
