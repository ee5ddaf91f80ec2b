/** The textbook evaluation of a join: nested loops over the relations, in order. */
module NestedLoops {
  import opened Counting
  import opened Degree
  import opened Instances

  /** How many results the loops from relation k on produce, rows 0..k fixed by t. */
  ghost function Results(g: JoinGraph, db: Database, t: Tuple, k: nat): nat
    requires k <= |db|
    decreases |db| - k, 1, 0
  {
    if k == |db| then if Satisfies(db, g.edges, t) then 1 else 0
    else ResultsOverRows(g, db, t, k, |db[k]|)
  }

  ghost function ResultsOverRows(g: JoinGraph, db: Database, t: Tuple, k: nat, r: nat): nat
    requires k < |db|
    decreases |db| - k, 0, r
  {
    if r == 0 then 0
    else ResultsOverRows(g, db, t, k, r - 1) + Results(g, db, Extend(t, k, r - 1), k + 1)
  }

  ghost predicate Extends(x: Tuple, t: Tuple) {
    forall v | v in t :: v in x && x[v] == t[v]
  }

  ghost predicate IsJoin(g: JoinGraph, db: Database, all: set<Tuple>) {
    forall x :: x in all <==> Covers(db, Below(|db|), x) && Satisfies(db, g.edges, x)
  }

  /** The results that extend t. */
  ghost predicate AreFrom(all: set<Tuple>, t: Tuple, some: set<Tuple>) {
    forall x :: x in some <==> x in all && Extends(x, t)
  }

  /** The results that extend t and take one of the first r rows of relation k. */
  ghost predicate AreUpToRow(all: set<Tuple>, t: Tuple, k: nat, r: nat, some: set<Tuple>) {
    forall x :: x in some <==> x in all && Extends(x, t) && k in x && x[k] < r
  }

  lemma ExtendsOneMore(x: Tuple, t: Tuple, k: nat, r: nat)
    requires k !in t
    ensures Extends(x, Extend(t, k, r)) <==> Extends(x, t) && k in x && x[k] == r
  {
  }

  lemma SplitLastRow(all: set<Tuple>, t: Tuple, k: nat, r: nat, some: set<Tuple>)
    returns (before: set<Tuple>, here: set<Tuple>)
    requires k !in t && AreUpToRow(all, t, k, r + 1, some)
    ensures AreUpToRow(all, t, k, r, before) && AreFrom(all, Extend(t, k, r), here)
    ensures |some| == |before| + |here|
  {
    before := set x | x in some && k in x && x[k] < r;
    here := some - before;
    forall x ensures x in here <==> x in all && Extends(x, Extend(t, k, r)) {
      ExtendsOneMore(x, t, k, r);
    }
  }

  lemma CoversOneMore(db: Database, t: Tuple, k: nat, r: nat)
    requires k < |db| && Covers(db, Below(k), t)
    ensures k !in t
    ensures r < |db[k]| ==> Covers(db, Below(k + 1), Extend(t, k, r))
  {
  }

  lemma {:induction false} ResultsCount(g: JoinGraph, db: Database, all: set<Tuple>, t: Tuple, k: nat, some: set<Tuple>)
    requires IsJoin(g, db, all) && k <= |db| && Covers(db, Below(k), t) && AreFrom(all, t, some)
    ensures |some| == Results(g, db, t, k)
    decreases |db| - k, 1, 0, 0
  {
    if k == |db| {
      forall x | x in some ensures x == t {
      }
      assert some == if Satisfies(db, g.edges, t) then {t} else {};
    } else {
      RowsCount(g, db, all, t, k, |db[k]|, some);
    }
  }

  lemma {:induction false} RowsCount(g: JoinGraph, db: Database, all: set<Tuple>, t: Tuple, k: nat, r: nat,
                                     some: set<Tuple>)
    requires IsJoin(g, db, all) && k < |db| && r <= |db[k]| && Covers(db, Below(k), t)
    requires AreUpToRow(all, t, k, r, some)
    ensures |some| == ResultsOverRows(g, db, t, k, r)
    decreases |db| - k, 0, r, 1
  {
    if r == 0 {
      assert some == {};
    } else {
      LastRowCount(g, db, all, t, k, r - 1, some);
    }
  }

  lemma {:induction false} LastRowCount(g: JoinGraph, db: Database, all: set<Tuple>, t: Tuple, k: nat, r: nat,
                                        some: set<Tuple>)
    requires IsJoin(g, db, all) && k < |db| && r < |db[k]| && Covers(db, Below(k), t)
    requires AreUpToRow(all, t, k, r + 1, some)
    ensures |some| == ResultsOverRows(g, db, t, k, r) + Results(g, db, Extend(t, k, r), k + 1)
    decreases |db| - k, 0, r + 1, 0
  {
    CoversOneMore(db, t, k, r);
    var before, here := SplitLastRow(all, t, k, r, some);
    RowsCount(g, db, all, t, k, r, before);
    ResultsCount(g, db, all, Extend(t, k, r), k + 1, here);
  }

  /** The join's cardinality is the number of rows nested-loop evaluation emits. */
  lemma JoinIsNestedLoops(g: JoinGraph, db: Database)
    ensures |Join(g, db)| == Results(g, db, map[], 0)
  {
    PartialJoinMembers(g, db, Below(|db|));
    ResultsCount(g, db, Join(g, db), map[], 0, Join(g, db));
  }
}
