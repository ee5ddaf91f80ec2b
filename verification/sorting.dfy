/** Stable sorting by a real key, as the source's library sorts do it. */
module Sorting {

  /** Ascending by key; equal keys keep the order of their positions. */
  ghost predicate Before(keys: seq<real>, a: nat, b: nat)
    requires a < |keys| && b < |keys|
  {
    keys[a] < keys[b] || (keys[a] == keys[b] && a < b)
  }

  /** `order` lists the positions 0..n, each once, in stable ascending order. */
  ghost predicate IsOrder(keys: seq<real>, order: seq<nat>, n: nat)
    requires n <= |keys|
  {
    && |order| == n
    && (forall i | 0 <= i < n :: order[i] < n)
    && InOrder(keys, order)
    && (forall v: nat | v < n :: v in order)
  }

  ghost predicate InOrder(keys: seq<real>, order: seq<nat>) {
    && (forall i | 0 <= i < |order| :: order[i] < |keys|)
    && (forall i, j | 0 <= i < j < |order| :: Before(keys, order[i], order[j]))
  }

  function Insert(keys: seq<real>, order: seq<nat>, v: nat): (r: seq<nat>)
    requires v < |keys| && forall i | 0 <= i < |order| :: order[i] < |keys|
    ensures |r| == |order| + 1
    ensures forall x :: x in r <==> x in order || x == v
  {
    if order == [] then [v]
    else
      var last := order[|order| - 1];
      assert order == order[..|order| - 1] + [last];
      if keys[last] <= keys[v] then order + [v]
      else Insert(keys, order[..|order| - 1], v) + [last]
  }

  function OrderOf(keys: seq<real>, n: nat): (order: seq<nat>)
    requires n <= |keys|
    ensures |order| == n
    ensures forall x: nat :: x in order <==> x < n
  {
    if n == 0 then []
    else
      var order := OrderOf(keys, n - 1);
      assert forall i | 0 <= i < |order| :: order[i] in order;
      Insert(keys, order, n - 1)
  }

  function StableOrder(keys: seq<real>): (order: seq<nat>)
    ensures |order| == |keys|
    ensures forall x: nat :: x in order <==> x < |keys|
  {
    OrderOf(keys, |keys|)
  }

  lemma {:induction false} InsertSorted(keys: seq<real>, order: seq<nat>, v: nat)
    requires v < |keys| && (forall i | 0 <= i < |order| :: order[i] < v) && InOrder(keys, order)
    ensures InOrder(keys, Insert(keys, order, v))
  {
    var r := Insert(keys, order, v);
    forall i | 0 <= i < |r| ensures r[i] < |keys| {
      assert r[i] in r;
    }
    if order != [] {
      var last, rest := order[|order| - 1], order[..|order| - 1];
      if keys[last] > keys[v] {
        InsertSorted(keys, rest, v);
        var inner := Insert(keys, rest, v);
        assert r == inner + [last];
        forall i | 0 <= i < |inner| ensures inner[i] < |keys| && Before(keys, inner[i], last) {
          assert inner[i] in inner;
          if inner[i] != v {
            var j :| 0 <= j < |rest| && rest[j] == inner[i];
            assert Before(keys, order[j], order[|order| - 1]);
          }
        }
        forall i, j | 0 <= i < j < |r| ensures Before(keys, r[i], r[j]) {
          assert j < |inner| ==> Before(keys, inner[i], inner[j]);
        }
      } else {
        forall i | 0 <= i < |order| ensures Before(keys, order[i], v) {
          assert i < |order| - 1 ==> Before(keys, order[i], order[|order| - 1]);
        }
      }
    }
  }

  lemma {:induction false} OrderIsStable(keys: seq<real>, n: nat)
    requires n <= |keys|
    ensures IsOrder(keys, OrderOf(keys, n), n)
  {
    if n > 0 {
      OrderIsStable(keys, n - 1);
      var before := OrderOf(keys, n - 1);
      assert forall i | 0 <= i < |before| :: before[i] < n - 1;
      InsertSorted(keys, before, n - 1);
      assert OrderOf(keys, n) == Insert(keys, before, n - 1);
    }
    var order := OrderOf(keys, n);
    assert forall i | 0 <= i < n :: order[i] in order;
  }

  /** The keys themselves in ascending order. */
  function SortedValues(keys: seq<real>): (s: seq<real>)
    ensures |s| == |keys|
  {
    var order := StableOrder(keys);
    assert forall i | 0 <= i < |order| :: order[i] in order;
    seq(|keys|, i requires 0 <= i < |keys| => keys[order[i]])
  }

  ghost predicate Nondecreasing(s: seq<real>) {
    forall i, j | 0 <= i <= j < |s| :: s[i] <= s[j]
  }

  lemma SortedValuesAscend(keys: seq<real>)
    ensures Nondecreasing(SortedValues(keys))
    ensures multiset(SortedValues(keys)) == multiset(keys)
  {
    OrderIsStable(keys, |keys|);
    var order, s := StableOrder(keys), SortedValues(keys);
    forall i, j | 0 <= i <= j < |s| ensures s[i] <= s[j] {
      if i < j {
        assert Before(keys, order[i], order[j]);
      }
    }
    OrderPermutes(keys, |keys|);
    assert keys[..|keys|] == keys;
    assert Picked(keys, order) == s;
  }

  function Picked(keys: seq<real>, order: seq<nat>): seq<real>
    requires forall i | 0 <= i < |order| :: order[i] < |keys|
  {
    seq(|order|, i requires 0 <= i < |order| => keys[order[i]])
  }

  lemma {:induction false} InsertPermutes(keys: seq<real>, order: seq<nat>, v: nat)
    requires v < |keys| && forall i | 0 <= i < |order| :: order[i] < |keys|
    ensures var r := Insert(keys, order, v);
            && (forall i | 0 <= i < |r| :: r[i] < |keys|)
            && multiset(Picked(keys, r)) == multiset(Picked(keys, order)) + multiset{keys[v]}
  {
    var r := Insert(keys, order, v);
    assert forall i | 0 <= i < |r| :: r[i] in r;
    if order == [] {
      assert Picked(keys, r) == [keys[v]];
    } else {
      var last, rest := order[|order| - 1], order[..|order| - 1];
      assert Picked(keys, order) == Picked(keys, rest) + [keys[last]];
      if keys[last] > keys[v] {
        InsertPermutes(keys, rest, v);
        assert Picked(keys, r) == Picked(keys, Insert(keys, rest, v)) + [keys[last]];
      } else {
        assert Picked(keys, r) == Picked(keys, order) + [keys[v]];
      }
    }
  }

  lemma {:induction false} OrderPermutes(keys: seq<real>, n: nat)
    requires n <= |keys|
    ensures var order := OrderOf(keys, n);
            && (forall i | 0 <= i < |order| :: order[i] < |keys|)
            && multiset(Picked(keys, order)) == multiset(keys[..n])
  {
    if n > 0 {
      OrderPermutes(keys, n - 1);
      InsertPermutes(keys, OrderOf(keys, n - 1), n - 1);
      OneMore(keys[..n - 1], keys[n - 1]);
      assert keys[..n] == keys[..n - 1] + [keys[n - 1]];
    }
  }

  lemma OneMore(s: seq<real>, x: real)
    ensures multiset(s + [x]) == multiset(s) + multiset{x}
  {
  }
}
