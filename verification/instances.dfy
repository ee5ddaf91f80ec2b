/**
  Database instances, and what it means for the statistics of a join graph to
  describe one.  A relation is a bag of rows, told apart by their index, so the
  result of a join is a set of index tuples and its cardinality counts duplicates.
 */
module Instances {
  import opened Counting
  import opened Degree

  type Value = int

  /** An attribute a row does not define is NULL: it equals nothing. */
  type Row = map<AttributeId, Value>
  type Relation = seq<Row>
  type Database = seq<Relation>

  /** A (partial) result tuple: for each relation it covers, the index of a row. */
  type Tuple = map<nat, nat>

  ghost function RowsWith(rows: Relation, attribute: AttributeId, value: Value): set<nat> {
    set r: nat | 0 <= r < |rows| && attribute in rows[r] && rows[r][attribute] == value
  }

  /** The soundness obligation on the statistics of one relation. */
  ghost predicate Describes(rel: JoinRelation, rows: Relation) {
    && |rows| <= rel.rows
    && forall a, value | a in rel.degrees :: |RowsWith(rows, a, value)| <= rel.degrees[a].maxDegree
  }

  ghost predicate Consistent(g: JoinGraph, db: Database) {
    && |db| == g.Size()
    && forall v | 0 <= v < |db| :: Describes(g.relations[v], db[v])
  }

  ghost predicate RowsAgree(db: Database, attribute: AttributeId, u: nat, r: nat, v: nat, s: nat) {
    && u < |db| && r < |db[u]| && v < |db| && s < |db[v]|
    && attribute in db[u][r] && attribute in db[v][s]
    && db[u][r][attribute] == db[v][s][attribute]
  }

  /** An edge constrains a tuple once the tuple covers both of its ends. */
  ghost predicate Holds(db: Database, e: JoinEdge, t: Tuple) {
    e.left in t && e.right in t ==> RowsAgree(db, e.attribute, e.left, t[e.left], e.right, t[e.right])
  }

  ghost predicate Satisfies(db: Database, edges: seq<JoinEdge>, t: Tuple) {
    forall e | e in edges :: Holds(db, e, t)
  }

  ghost predicate Covers(db: Database, scope: set<nat>, t: Tuple) {
    && t.Keys == scope
    && forall v | v in scope :: v < |db| && t[v] < |db[v]|
  }

  /** All choices of one row from each relation in `scope` below n. */
  ghost function Choices(db: Database, n: nat, scope: set<nat>): set<Tuple>
    requires n <= |db|
  {
    if n == 0 then {map[]}
    else
      var before := Choices(db, n - 1, scope);
      if n - 1 in scope then Extensions(before, n - 1, Below(|db[n - 1]|)) else before
  }

  ghost function Extensions(tuples: set<Tuple>, v: nat, rows: set<nat>): set<Tuple> {
    set t, r | t in tuples && r in rows :: Extend(t, v, r)
  }

  function Extend(t: Tuple, v: nat, r: nat): Tuple {
    t[v := r]
  }

  lemma {:induction false} ChoicesMembers(db: Database, n: nat, scope: set<nat>, t: Tuple)
    requires n <= |db|
    ensures t in Choices(db, n, scope) <==> Covers(db, (set v | v in scope && v < n), t)
  {
    if n == 0 {
      assert (set v | v in scope && v < n) == {};
      if t.Keys == {} {
        assert t == map[];
      }
    } else {
      var now := set v | v in scope && v < n;
      var below := set v | v in scope && v < n - 1;
      var before := Choices(db, n - 1, scope);
      if n - 1 in scope {
        assert now == below + {n - 1};
        var rest := t - {n - 1};
        ChoicesMembers(db, n - 1, scope, rest);
        if t in Choices(db, n, scope) {
          var t', r :| t' in before && r in Below(|db[n - 1]|) && t == Extend(t', n - 1, r);
          ChoicesMembers(db, n - 1, scope, t');
        }
        if Covers(db, now, t) {
          assert rest.Keys == below;
          assert rest in before;
          assert t == Extend(rest, n - 1, t[n - 1]);
        }
      } else {
        assert now == below;
        ChoicesMembers(db, n - 1, scope, t);
      }
    }
  }

  /** The tuples over `scope` that satisfy every edge inside `scope`. */
  ghost function PartialJoin(g: JoinGraph, db: Database, scope: set<nat>): set<Tuple> {
    set t | t in Choices(db, |db|, scope) && Satisfies(db, g.edges, t)
  }

  ghost predicate InScope(db: Database, scope: set<nat>) {
    forall v | v in scope :: v < |db|
  }

  lemma PartialJoinMembers(g: JoinGraph, db: Database, scope: set<nat>)
    requires InScope(db, scope)
    ensures forall t :: t in PartialJoin(g, db, scope) <==> Covers(db, scope, t) && Satisfies(db, g.edges, t)
  {
    assert (set v | v in scope && v < |db|) == scope;
    forall t ensures t in PartialJoin(g, db, scope) <==> Covers(db, scope, t) && Satisfies(db, g.edges, t) {
      ChoicesMembers(db, |db|, scope, t);
    }
  }

  /** The join itself: one row of every relation, satisfying every edge. */
  ghost function Join(g: JoinGraph, db: Database): set<Tuple> {
    PartialJoin(g, db, Below(|db|))
  }

  /** Whether attached or defaulted, a described degree bounds every value's row count. */
  lemma DegreeBoundsRows(rel: JoinRelation, rows: Relation, attribute: AttributeId, value: Value)
    requires Describes(rel, rows)
    ensures |RowsWith(rows, attribute, value)| <= rel.Degree(attribute).maxDegree
  {
    if attribute !in rel.degrees {
      BoundedCount(RowsWith(rows, attribute, value), |rows|);
    }
  }
}
