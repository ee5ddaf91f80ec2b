/** Counting finite sets through the fibres of a map between them. */
module Counting {

  ghost function Fibre<X, Y>(a: set<X>, f: X -> Y, y: Y): set<X> {
    set x | x in a && f(x) == y
  }

  /** If every fibre of f: a -> b has between lo and hi elements, so does the count per element of b. */
  lemma {:induction false} FibreBounds<X, Y>(a: set<X>, b: set<Y>, f: X -> Y, lo: nat, hi: nat)
    requires forall x | x in a :: f(x) in b
    requires forall y | y in b :: lo <= |Fibre(a, f, y)| <= hi
    ensures lo * |b| <= |a| <= hi * |b|
    decreases |b|
  {
    if b == {} {
      assert a == {};
    } else {
      var y :| y in b;
      var here := Fibre(a, f, y);
      var a', b' := a - here, b - {y};
      forall z | z in b' ensures lo <= |Fibre(a', f, z)| <= hi {
        assert Fibre(a', f, z) == Fibre(a, f, z);
      }
      FibreBounds(a', b', f, lo, hi);
      AddFibre(|a|, |a'|, |here|, |b'|, lo, hi);
    }
  }

  lemma AddFibre(total: nat, rest: nat, here: nat, n: nat, lo: nat, hi: nat)
    requires total == rest + here
    requires lo * n <= rest <= hi * n && lo <= here <= hi
    ensures lo * (n + 1) <= total <= hi * (n + 1)
  {
  }

  lemma SubsetCount<X>(a: set<X>, b: set<X>)
    requires a <= b
    ensures |a| <= |b|
  {
    assert b == a + (b - a);
  }

  lemma SingletonFibre<X, Y>(a: set<X>, f: X -> Y, y: Y)
    requires forall x, x' | x in a && x' in a && f(x) == f(x') :: x == x'
    ensures |Fibre(a, f, y)| <= 1
    ensures (exists x :: x in a && f(x) == y) ==> |Fibre(a, f, y)| == 1
  {
    var here := Fibre(a, f, y);
    if here != {} {
      var x :| x in here;
      assert here == {x};
    }
    if exists x :: x in a && f(x) == y {
      var x :| x in a && f(x) == y;
      assert x in here;
    }
  }

  /** An injection into b bounds |a|; a bijection equates the counts. */
  lemma InjectionCount<X, Y>(a: set<X>, b: set<Y>, f: X -> Y)
    requires forall x | x in a :: f(x) in b
    requires forall x, x' | x in a && x' in a && f(x) == f(x') :: x == x'
    ensures |a| <= |b|
    ensures (forall y | y in b :: exists x :: x in a && f(x) == y) ==> |a| == |b|
  {
    forall y | y in b ensures |Fibre(a, f, y)| <= 1 {
      SingletonFibre(a, f, y);
    }
    FibreBounds(a, b, f, 0, 1);
    if forall y | y in b :: exists x :: x in a && f(x) == y {
      forall y | y in b ensures 1 <= |Fibre(a, f, y)| <= 1 {
        SingletonFibre(a, f, y);
      }
      FibreBounds(a, b, f, 1, 1);
    }
  }

  ghost function Below(n: nat): (s: set<nat>)
    ensures forall i: nat :: i in s <==> i < n
  {
    if n == 0 then {} else Below(n - 1) + {n - 1}
  }

  lemma BelowCount(n: nat)
    ensures |Below(n)| == n
  {
  }

  /** A set of naturals below n has at most n elements. */
  lemma BoundedCount(s: set<nat>, n: nat)
    requires forall i | i in s :: i < n
    ensures |s| <= n
  {
    BelowCount(n);
    SubsetCount(s, Below(n));
  }

  /** A duplicate-free sequence has as many elements as the set it lists. */
  lemma DistinctCount<X>(s: seq<X>)
    requires forall i, j | 0 <= i < j < |s| :: s[i] != s[j]
    ensures |set x | x in s| == |s|
  {
    if s != [] {
      var rest := s[..|s| - 1];
      DistinctCount(rest);
      assert (set x | x in s) == (set x | x in rest) + {s[|s| - 1]};
    }
  }
}
