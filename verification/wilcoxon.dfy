/** The Wilcoxon signed-rank test, exact branch (`wilcoxon_paired.py`), over the reals. */
module Wilcoxon {
  import opened Machine
  import opened Counting
  import opened Sorting

  // Tie-averaged ranks.

  ghost function Smaller(values: seq<real>, v: real): set<nat> {
    set x | x in Below(|values|) && values[x] < v
  }

  ghost function Equal(values: seq<real>, v: real): set<nat> {
    set x | x in Below(|values|) && values[x] == v
  }

  /** The mean of the ranks that the values equal to v occupy, counting from 1. */
  ghost function MidRank(values: seq<real>, v: real): real {
    |Smaller(values, v)| as real + (|Equal(values, v)| + 1) as real / 2.0
  }

  ghost function MidRanks(values: seq<real>): (ranks: seq<real>)
    ensures |ranks| == |values|
  {
    seq(|values|, x requires 0 <= x < |values| => MidRank(values, values[x]))
  }

  ghost predicate Ordered(values: seq<real>, order: seq<nat>) {
    IsOrder(values, order, |values|)
  }

  /** Positions i..j of the order hold one value, which occurs nowhere else. */
  ghost predicate IsTieGroup(values: seq<real>, order: seq<nat>, i: nat, j: nat)
    requires Ordered(values, order)
  {
    && i <= j < |values|
    && (forall k | i <= k <= j :: values[order[k]] == values[order[i]])
    && (i > 0 ==> values[order[i - 1]] < values[order[i]])
    && (j + 1 < |values| ==> values[order[i]] < values[order[j + 1]])
  }

  lemma OrderAscends(values: seq<real>, order: seq<nat>, a: nat, b: nat)
    requires Ordered(values, order) && a <= b < |values|
    ensures values[order[a]] <= values[order[b]]
  {
  }

  ghost function Listed(s: seq<nat>): set<nat> {
    set x | x in s
  }

  lemma PositionsDiffer(values: seq<real>, order: seq<nat>, a: nat, b: nat)
    requires Ordered(values, order) && a < |values| && b < |values|
    ensures order[a] == order[b] ==> a == b
  {
    if a < b {
      assert Before(values, order[a], order[b]);
    } else if b < a {
      assert Before(values, order[b], order[a]);
    }
  }

  /** A slice of the order lists as many positions as it is long, and none from outside it. */
  lemma ListedSlice(values: seq<real>, order: seq<nat>, a: nat, b: nat)
    requires Ordered(values, order) && a <= b <= |values|
    ensures |Listed(order[a..b])| == b - a
    ensures forall k | 0 <= k < |order| :: order[k] in Listed(order[a..b]) <==> a <= k < b
  {
    var s := order[a..b];
    forall i, j | 0 <= i < j < |s| ensures s[i] != s[j] {
      PositionsDiffer(values, order, a + i, a + j);
    }
    DistinctCount(s);
    forall k | 0 <= k < |order| ensures order[k] in s <==> a <= k < b {
      if order[k] in s {
        var i :| 0 <= i < |s| && s[i] == order[k];
        assert order[a + i] == order[k];
        PositionsDiffer(values, order, a + i, k);
      }
      if a <= k < b {
        assert s[k - a] == order[k];
      }
    }
  }

  /** A tie group splits the positions into those below it, its own, and those above. */
  lemma TieGroupSides(values: seq<real>, order: seq<nat>, i: nat, j: nat, k: nat)
    requires Ordered(values, order) && IsTieGroup(values, order, i, j) && k < |values|
    ensures k < i <==> values[order[k]] < values[order[i]]
    ensures i <= k <= j <==> values[order[k]] == values[order[i]]
  {
    if k < i {
      OrderAscends(values, order, k, i - 1);
    } else if k > j {
      OrderAscends(values, order, j + 1, k);
    }
  }

  lemma TieGroupSmaller(values: seq<real>, order: seq<nat>, i: nat, j: nat)
    requires Ordered(values, order) && IsTieGroup(values, order, i, j)
    ensures |Smaller(values, values[order[i]])| == i
  {
    var v := values[order[i]];
    ListedSlice(values, order, 0, i);
    ListedInRange(values, order, 0, i);
    forall x: nat | x < |values| ensures x in Smaller(values, v) <==> x in Listed(order[0..i]) {
      var k := PositionOf(values, order, x);
      TieGroupSides(values, order, i, j, k);
    }
    assert Smaller(values, v) == Listed(order[0..i]);
  }

  lemma TieGroupEqual(values: seq<real>, order: seq<nat>, i: nat, j: nat)
    requires Ordered(values, order) && IsTieGroup(values, order, i, j)
    ensures |Equal(values, values[order[i]])| == j + 1 - i
  {
    var v := values[order[i]];
    ListedSlice(values, order, i, j + 1);
    ListedInRange(values, order, i, j + 1);
    forall x: nat | x < |values| ensures x in Equal(values, v) <==> x in Listed(order[i..j + 1]) {
      var k := PositionOf(values, order, x);
      TieGroupSides(values, order, i, j, k);
    }
    assert Equal(values, v) == Listed(order[i..j + 1]);
  }

  lemma PositionOf(values: seq<real>, order: seq<nat>, x: nat) returns (k: nat)
    requires Ordered(values, order) && x < |values|
    ensures k < |order| && order[k] == x
  {
    assert x in order;
    k :| 0 <= k < |order| && order[k] == x;
  }

  lemma ListedInRange(values: seq<real>, order: seq<nat>, a: nat, b: nat)
    requires Ordered(values, order) && a <= b <= |values|
    ensures forall x | x in Listed(order[a..b]) :: x < |values|
  {
  }

  /** A tie group's mid-rank is the mean of its positions, counting from 1. */
  lemma TieGroupRank(values: seq<real>, order: seq<nat>, i: nat, j: nat)
    requires Ordered(values, order) && IsTieGroup(values, order, i, j)
    ensures MidRank(values, values[order[i]]) == 0.5 * (i + j) as real + 1.0
  {
    TieGroupSmaller(values, order, i, j);
    TieGroupEqual(values, order, i, j);
  }

  /** Gives the positions a tie group lists its rank, and no others. */
  method RankGroup(ranks: array<real>, values: seq<real>, order: seq<nat>, i: nat, j: nat, avg: real)
    requires Ordered(values, order) && ranks.Length == |values| && i <= j < |values|
    modifies ranks
    ensures forall k | i <= k <= j :: ranks[order[k]] == avg
    ensures forall k | 0 <= k < i :: ranks[order[k]] == old(ranks[order[k]])
  {
    for k := i to j + 1
      invariant forall m | i <= m < k :: ranks[order[m]] == avg
      invariant forall m | 0 <= m < i :: ranks[order[m]] == old(ranks[order[m]])
    {
      forall m: nat | m < k ensures order[m] != order[k] {
        PositionsDiffer(values, order, m, k);
      }
      ranks[order[k]] := avg;
    }
  }

  method RankAverage(values: seq<real>) returns (result: seq<real>)
    ensures result == MidRanks(values)
  {
    var n := |values|;
    var order := StableOrder(values);
    OrderIsStable(values, n);
    var ranks := new real[n](_ => 0.0);
    var i := 0;
    while i < n
      invariant i <= n
      invariant 0 < i < n ==> values[order[i - 1]] < values[order[i]]
      invariant forall k | 0 <= k < i :: ranks[order[k]] == MidRank(values, values[order[k]])
    {
      var j := i;
      while j + 1 < n && values[order[j + 1]] == values[order[i]]
        invariant i <= j < n
        invariant forall k | i <= k <= j :: values[order[k]] == values[order[i]]
      {
        j := j + 1;
      }
      if j + 1 < n {
        OrderAscends(values, order, i, j + 1);
      }
      TieGroupRank(values, order, i, j);
      RankGroup(ranks, values, order, i, j, 0.5 * (i + j) as real + 1.0);
      i := j + 1;
    }
    result := ranks[..];
    forall x | 0 <= x < n ensures result[x] == MidRank(values, values[x]) {
      assert x in order;
    }
  }

  /** Larger values get strictly larger ranks; equal values, by definition, equal ones. */
  lemma RanksFollowOrder(values: seq<real>, x: nat, y: nat)
    requires x < |values| && y < |values|
    ensures values[x] < values[y] <==> MidRanks(values)[x] < MidRanks(values)[y]
  {
    if values[x] < values[y] {
      RankStrict(values, x, y);
    } else if values[y] < values[x] {
      RankStrict(values, y, x);
    }
  }

  lemma RankStrict(values: seq<real>, x: nat, y: nat)
    requires x < |values| && y < |values| && values[x] < values[y]
    ensures MidRank(values, values[x]) < MidRank(values, values[y])
  {
    var less, same := Smaller(values, values[x]), Equal(values, values[x]);
    assert less + same <= Smaller(values, values[y]);
    SubsetCount(less + same, Smaller(values, values[y]));
    assert |less + same| == |less| + |same|;
    assert x in same && y in Equal(values, values[y]);
    SubsetCount({x}, same);
    SubsetCount({y}, Equal(values, values[y]));
  }

  // The total of the ranks.

  function SumReal(s: seq<real>): real {
    if s == [] then 0.0 else SumReal(s[..|s| - 1]) + s[|s| - 1]
  }

  lemma {:induction false} SumInserted(keys: seq<real>, terms: seq<real>, order: seq<nat>, v: nat)
    requires |keys| == |terms| && v < |keys| && forall i | 0 <= i < |order| :: order[i] < |keys|
    ensures var r := Insert(keys, order, v);
            && (forall i | 0 <= i < |r| :: r[i] < |terms|)
            && SumReal(Picked(terms, r)) == SumReal(Picked(terms, order)) + terms[v]
  {
    var r := Insert(keys, order, v);
    assert forall i | 0 <= i < |r| :: r[i] in r;
    if order == [] {
      assert Picked(terms, r) == [terms[v]];
      assert Picked(terms, r)[..0] == [];
    } else {
      var last, rest := order[|order| - 1], order[..|order| - 1];
      assert Picked(terms, order)[..|order| - 1] == Picked(terms, rest);
      if keys[last] > keys[v] {
        SumInserted(keys, terms, rest, v);
        assert Picked(terms, r)[..|order|] == Picked(terms, Insert(keys, rest, v));
      } else {
        assert Picked(terms, r)[..|order|] == Picked(terms, order);
      }
    }
  }

  /** Adding up in sorted order gives the same sum. */
  lemma {:induction false} SumInOrder(keys: seq<real>, terms: seq<real>, n: nat)
    requires |keys| == |terms| && n <= |keys|
    ensures var order := OrderOf(keys, n);
            (forall i | 0 <= i < |order| :: order[i] < |terms|) && SumReal(Picked(terms, order)) == SumReal(terms[..n])
  {
    if n > 0 {
      SumInOrder(keys, terms, n - 1);
      SumInserted(keys, terms, OrderOf(keys, n - 1), n - 1);
      assert terms[..n][..n - 1] == terms[..n - 1];
    }
  }

  function Triangle(n: nat): real {
    n as real * (n as real + 1.0) / 2.0
  }

  /** Within a tie group the partial sums rise linearly. */
  lemma {:induction false} SumWithinGroup(terms: seq<real>, i: nat, j: nat, avg: real, k: nat)
    requires i <= k <= j + 1 <= |terms| && forall m | i <= m <= j :: terms[m] == avg
    ensures SumReal(terms[..k]) == SumReal(terms[..i]) + (k - i) as real * avg
    decreases k
  {
    if k > i {
      SumWithinGroup(terms, i, j, avg, k - 1);
      assert terms[..k][..k - 1] == terms[..k - 1];
      assert (k - i) as real * avg == (k - 1 - i) as real * avg + avg;
    }
  }

  lemma GroupArea(i: nat, j: nat)
    requires i <= j
    ensures Triangle(i) + (j + 1 - i) as real * (0.5 * (i + j) as real + 1.0) == Triangle(j + 1)
  {
  }

  lemma GroupTotal(terms: seq<real>, i: nat, j: nat)
    requires i <= j < |terms| && SumReal(terms[..i]) == Triangle(i)
    requires forall m | i <= m <= j :: terms[m] == 0.5 * (i + j) as real + 1.0
    ensures SumReal(terms[..j + 1]) == Triangle(j + 1)
  {
    SumWithinGroup(terms, i, j, 0.5 * (i + j) as real + 1.0, j + 1);
    GroupArea(i, j);
  }

  /** The end of the tie group that starts at position i. */
  lemma GroupFrom(values: seq<real>, order: seq<nat>, i: nat) returns (j: nat)
    requires Ordered(values, order) && i < |values| && (i > 0 ==> values[order[i - 1]] < values[order[i]])
    ensures IsTieGroup(values, order, i, j)
  {
    j := i;
    while j + 1 < |values| && values[order[j + 1]] == values[order[i]]
      invariant i <= j < |values|
      invariant forall k | i <= k <= j :: values[order[k]] == values[order[i]]
    {
      j := j + 1;
    }
    if j + 1 < |values| {
      OrderAscends(values, order, i, j + 1);
    }
  }

  lemma SortedRanksTotal(values: seq<real>, order: seq<nat>)
    requires Ordered(values, order)
    ensures SumReal(Picked(MidRanks(values), order)) == Triangle(|values|)
  {
    var terms, n := Picked(MidRanks(values), order), |values|;
    var i := 0;
    assert terms[..0] == [];
    while i < n
      invariant i <= n
      invariant 0 < i < n ==> values[order[i - 1]] < values[order[i]]
      invariant SumReal(terms[..i]) == Triangle(i)
    {
      var j := GroupFrom(values, order, i);
      TieGroupRank(values, order, i, j);
      GroupTotal(terms, i, j);
      i := j + 1;
    }
    assert terms[..n] == terms;
  }

  /** The ranks always add up to n(n + 1)/2, ties or not. */
  lemma RanksTotal(values: seq<real>)
    ensures SumReal(MidRanks(values)) == Triangle(|values|)
  {
    OrderIsStable(values, |values|);
    SortedRanksTotal(values, StableOrder(values));
    SumInOrder(values, MidRanks(values), |values|);
    assert MidRanks(values)[..|values|] == MidRanks(values);
  }

  // The statistic.

  function NonZero(diffs: seq<real>): (nz: seq<real>)
    ensures forall i | 0 <= i < |nz| :: nz[i] != 0.0
  {
    if diffs == [] then []
    else
      var last := diffs[|diffs| - 1];
      NonZero(diffs[..|diffs| - 1]) + if last != 0.0 then [last] else []
  }

  function Magnitudes(diffs: seq<real>): seq<real> {
    seq(|diffs|, i requires 0 <= i < |diffs| => if diffs[i] < 0.0 then -diffs[i] else diffs[i])
  }

  /** The sum of the ranks that are selected. */
  function Selected(ranks: seq<real>, bits: seq<bool>): real
    requires |ranks| == |bits|
  {
    if ranks == [] then 0.0 else (if bits[0] then ranks[0] else 0.0) + Selected(ranks[1..], bits[1..])
  }

  function Positive(diffs: seq<real>): seq<bool> {
    seq(|diffs|, i requires 0 <= i < |diffs| => diffs[i] > 0.0)
  }

  function Negative(diffs: seq<real>): seq<bool> {
    seq(|diffs|, i requires 0 <= i < |diffs| => diffs[i] < 0.0)
  }

  function Complement(bits: seq<bool>): seq<bool> {
    seq(|bits|, i requires 0 <= i < |bits| => !bits[i])
  }

  function TotalOf(ranks: seq<real>): real {
    if ranks == [] then 0.0 else ranks[0] + TotalOf(ranks[1..])
  }

  lemma {:induction false} SelectedComplement(ranks: seq<real>, bits: seq<bool>)
    requires |ranks| == |bits|
    ensures Selected(ranks, bits) + Selected(ranks, Complement(bits)) == TotalOf(ranks)
  {
    if ranks != [] {
      SelectedComplement(ranks[1..], bits[1..]);
      assert Complement(bits)[1..] == Complement(bits[1..]);
    }
  }

  lemma {:induction false} TotalIsSum(ranks: seq<real>)
    ensures TotalOf(ranks) == SumReal(ranks)
  {
    if |ranks| == 1 {
      assert ranks[1..] == [] && ranks[..0] == [];
    } else if |ranks| > 1 {
      var n := |ranks|;
      TotalIsSum(ranks[1..]);
      TotalIsSum(ranks[..n - 1]);
      TotalIsSum(ranks[1..][..n - 2]);
      assert ranks[..n - 1][1..] == ranks[1..][..n - 2];
    }
  }

  ghost function WPlus(nz: seq<real>): real {
    Selected(MidRanks(Magnitudes(nz)), Positive(nz))
  }

  ghost function WMinus(nz: seq<real>): real {
    Selected(MidRanks(Magnitudes(nz)), Complement(Positive(nz)))
  }

  /** The smaller of the two rank sums. */
  ghost function Statistic(nz: seq<real>): real {
    MinReal(WPlus(nz), WMinus(nz))
  }

  /** The two rank sums always add up to n(n + 1)/2. */
  lemma RankSumsTotal(nz: seq<real>)
    ensures WPlus(nz) + WMinus(nz) == Triangle(|nz|)
    ensures TotalOf(MidRanks(Magnitudes(nz))) == Triangle(|nz|)
  {
    SelectedComplement(MidRanks(Magnitudes(nz)), Positive(nz));
    TotalIsSum(MidRanks(Magnitudes(nz)));
    RanksTotal(Magnitudes(nz));
  }

  // All sign assignments.

  function Prefixed(b: bool, list: seq<seq<bool>>): (r: seq<seq<bool>>)
    ensures |r| == |list|
  {
    seq(|list|, i requires 0 <= i < |list| => [b] + list[i])
  }

  /** Every vector of n bits, in lexicographic order. */
  function AllBits(n: nat): (list: seq<seq<bool>>)
    ensures |list| == Pow2(n)
    ensures forall i | 0 <= i < |list| :: |list[i]| == n
  {
    if n == 0 then [[]] else Prefixed(false, AllBits(n - 1)) + Prefixed(true, AllBits(n - 1))
  }

  lemma {:induction false} AllBitsComplete(bits: seq<bool>)
    ensures bits in AllBits(|bits|)
  {
    if bits == [] {
      assert AllBits(0)[0] == bits;
    } else {
      var rest := bits[1..];
      AllBitsComplete(rest);
      var i :| 0 <= i < |AllBits(|rest|)| && AllBits(|rest|)[i] == rest;
      assert bits == [bits[0]] + rest;
      AllBitsAt(bits[0], |rest|, i);
    }
  }

  /** One bit more: the shorter vectors follow a leading 0, and then a leading 1, in the same order. */
  lemma AllBitsAt(b: bool, n: nat, i: nat)
    requires i < Pow2(n)
    ensures AllBits(n + 1)[if b then Pow2(n) + i else i] == [b] + AllBits(n)[i]
  {
    var list := AllBits(n);
    assert AllBits(n + 1) == Prefixed(false, list) + Prefixed(true, list);
  }

  /** How many of the vectors give a rank sum that, on top of base, passes the test. */
  ghost function Hits(list: seq<seq<bool>>, ranks: seq<real>, test: real -> bool, base: real): nat
    requires forall i | 0 <= i < |list| :: |list[i]| == |ranks|
  {
    if list == [] then 0
    else
      Hits(list[..|list| - 1], ranks, test, base) +
      if test(base + Selected(ranks, list[|list| - 1])) then 1 else 0
  }

  lemma {:induction false} HitsOfConcat(a: seq<seq<bool>>, b: seq<seq<bool>>, ranks: seq<real>, test: real -> bool, base: real)
    requires forall i | 0 <= i < |a| :: |a[i]| == |ranks|
    requires forall i | 0 <= i < |b| :: |b[i]| == |ranks|
    ensures Hits(a + b, ranks, test, base) == Hits(a, ranks, test, base) + Hits(b, ranks, test, base)
  {
    if b == [] {
      assert a + b == a;
    } else {
      HitsOfConcat(a, b[..|b| - 1], ranks, test, base);
      assert (a + b)[..|a + b| - 1] == a + b[..|b| - 1];
    }
  }

  lemma {:induction false} HitsOfPrefixed(b: bool, list: seq<seq<bool>>, ranks: seq<real>, test: real -> bool, base: real)
    requires ranks != [] && forall i | 0 <= i < |list| :: |list[i]| == |ranks| - 1
    ensures Hits(Prefixed(b, list), ranks, test, base) ==
            Hits(list, ranks[1..], test, base + if b then ranks[0] else 0.0)
  {
    if list != [] {
      var rest, last := list[..|list| - 1], list[|list| - 1];
      HitsOfPrefixed(b, rest, ranks, test, base);
      assert Prefixed(b, list)[..|list| - 1] == Prefixed(b, rest);
      assert ([b] + last)[1..] == last;
      var first := if b then ranks[0] else 0.0;
      assert base + (first + Selected(ranks[1..], last)) == base + first + Selected(ranks[1..], last);
    }
  }

  ghost function AllHits(ranks: seq<real>, test: real -> bool, base: real): nat {
    Hits(AllBits(|ranks|), ranks, test, base)
  }

  lemma AllHitsSplit(ranks: seq<real>, test: real -> bool, base: real)
    requires ranks != []
    ensures AllHits(ranks, test, base) == AllHits(ranks[1..], test, base) + AllHits(ranks[1..], test, base + ranks[0])
  {
    var list := AllBits(|ranks| - 1);
    HitsOfBoth(list, ranks, test, base);
    assert AllBits(|ranks|) == Prefixed(false, list) + Prefixed(true, list);
    assert |ranks[1..]| == |ranks| - 1;
  }

  lemma HitsOfBoth(list: seq<seq<bool>>, ranks: seq<real>, test: real -> bool, base: real)
    requires ranks != [] && forall i | 0 <= i < |list| :: |list[i]| == |ranks| - 1
    ensures var both := Prefixed(false, list) + Prefixed(true, list);
            && (forall i | 0 <= i < |both| :: |both[i]| == |ranks|)
            && Hits(both, ranks, test, base) ==
               Hits(list, ranks[1..], test, base) + Hits(list, ranks[1..], test, base + ranks[0])
  {
    HitsOfConcat(Prefixed(false, list), Prefixed(true, list), ranks, test, base);
    PrefixedFalse(list, ranks, test, base);
    HitsOfPrefixed(true, list, ranks, test, base);
  }

  lemma PrefixedFalse(list: seq<seq<bool>>, ranks: seq<real>, test: real -> bool, base: real)
    requires ranks != [] && forall i | 0 <= i < |list| :: |list[i]| == |ranks| - 1
    ensures Hits(Prefixed(false, list), ranks, test, base) == Hits(list, ranks[1..], test, base)
  {
    HitsOfPrefixed(false, list, ranks, test, base);
    assert base + 0.0 == base;
  }

  /** Flipping every sign matches assignments that pass a test with those that pass its mirror image. */
  lemma {:induction false} AllHitsMirror(ranks: seq<real>, test: real -> bool, mirror: real -> bool, c: real, base: real)
    requires forall x :: mirror(c - x) == test(x)
    ensures AllHits(ranks, test, base) == AllHits(ranks, mirror, c - base - TotalOf(ranks))
    decreases |ranks|
  {
    var there := c - base - TotalOf(ranks);
    if ranks == [] {
      assert mirror(c - base) == test(base);
      SingleHit(test, base);
      SingleHit(mirror, there);
    } else {
      var rest, r := ranks[1..], ranks[0];
      AllHitsSplit(ranks, test, base);
      AllHitsSplit(ranks, mirror, there);
      AllHitsMirror(rest, test, mirror, c, base);
      AllHitsMirror(rest, test, mirror, c, base + r);
      assert c - base - TotalOf(rest) == there + r;
      assert c - (base + r) - TotalOf(rest) == there;
    }
  }

  lemma SingleHit(test: real -> bool, base: real)
    ensures AllHits([], test, base) == if test(base) then 1 else 0
  {
    var list := AllBits(0);
    assert list == [[]] && list[..0] == [];
    assert Hits(list[..0], [], test, base) == 0;
    assert list[0] == [] && base + Selected([], list[0]) == base;
  }

  ghost function AtMost(w: real): real -> bool {
    (x: real) => x <= w
  }

  ghost function AtLeast(w: real): real -> bool {
    (x: real) => x >= w
  }

  /** As many assignments have W+ <= w as have W+ >= total - w. */
  lemma TailsAreEqual(ranks: seq<real>, w: real)
    ensures AllHits(ranks, AtMost(w), 0.0) == AllHits(ranks, AtLeast(TotalOf(ranks) - w), 0.0)
  {
    var total := TotalOf(ranks);
    AllHitsMirror(ranks, AtMost(w), AtLeast(total - w), total, 0.0);
    assert total - 0.0 - total == 0.0;
  }

  /** The tail test of the enumeration. */
  ghost function TwoTailed(total: real, w: real): real -> bool {
    (x: real) => x <= w || x >= total - w
  }

  /** It is the test min(W+, W-) <= w. */
  lemma TwoTailedIsMinimum(ranks: seq<real>, bits: seq<bool>, w: real)
    requires |ranks| == |bits|
    ensures TwoTailed(TotalOf(ranks), w)(Selected(ranks, bits)) <==>
            MinReal(Selected(ranks, bits), Selected(ranks, Complement(bits))) <= w
  {
    SelectedComplement(ranks, bits);
  }

  lemma {:induction false} HitsBounds(list: seq<seq<bool>>, ranks: seq<real>, test: real -> bool, base: real)
    requires forall i | 0 <= i < |list| :: |list[i]| == |ranks|
    ensures Hits(list, ranks, test, base) <= |list|
    ensures (exists bits :: bits in list && |bits| == |ranks| && test(base + Selected(ranks, bits))) ==>
              Hits(list, ranks, test, base) >= 1
  {
    if list != [] {
      HitsBounds(list[..|list| - 1], ranks, test, base);
      assert list == list[..|list| - 1] + [list[|list| - 1]];
    }
  }

  /** The share of sign assignments at least as extreme as the observed one. */
  ghost function PValue(nz: seq<real>): real {
    var ranks := MidRanks(Magnitudes(nz));
    Share(AllHits(ranks, TwoTailed(TotalOf(ranks), Statistic(nz)), 0.0), Pow2(|nz|))
  }

  function Share(part: nat, whole: nat): real
    requires whole > 0
  {
    part as real / whole as real
  }

  /** The observed signs are themselves counted, so p is never zero. */
  lemma PValueInUnit(nz: seq<real>)
    ensures 0.0 < PValue(nz) <= 1.0
  {
    var ranks, bits := MidRanks(Magnitudes(nz)), Positive(nz);
    var test := TwoTailed(TotalOf(ranks), Statistic(nz));
    SelectedComplement(ranks, bits);
    AllBitsComplete(bits);
    assert 0.0 + Selected(ranks, bits) == Selected(ranks, bits);
    assert test(0.0 + Selected(ranks, bits));
    HitsBounds(AllBits(|ranks|), ranks, test, 0.0);
    Fraction(AllHits(ranks, test, 0.0), Pow2(|nz|));
  }

  lemma Fraction(a: nat, b: nat)
    requires 1 <= a <= b
    ensures 0.0 < Share(a, b) <= 1.0
  {
  }

  lemma {:induction false} HitsOfEither(list: seq<seq<bool>>, ranks: seq<real>, one: real -> bool, other: real -> bool,
                                        either: real -> bool, base: real)
    requires forall i | 0 <= i < |list| :: |list[i]| == |ranks|
    requires forall x :: either(x) <==> one(x) || other(x)
    ensures Hits(list, ranks, either, base) <= Hits(list, ranks, one, base) + Hits(list, ranks, other, base)
    ensures (forall x :: !(one(x) && other(x))) ==>
              Hits(list, ranks, either, base) == Hits(list, ranks, one, base) + Hits(list, ranks, other, base)
    ensures (forall x :: either(x)) ==> Hits(list, ranks, either, base) == |list|
  {
    if list != [] {
      HitsOfEither(list[..|list| - 1], ranks, one, other, either, base);
    }
  }

  ghost predicate Doubled(both: nat, tail: nat, all: nat) {
    both <= all && (both == 2 * tail || (both == all && 2 * tail >= both))
  }

  /** The two tails overlap only at the middle, and then every assignment is in one of them. */
  lemma TailsOfList(list: seq<seq<bool>>, ranks: seq<real>, total: real, w: real)
    requires w <= total - w && forall i | 0 <= i < |list| :: |list[i]| == |ranks|
    requires Hits(list, ranks, AtMost(w), 0.0) == Hits(list, ranks, AtLeast(total - w), 0.0)
    ensures Doubled(Hits(list, ranks, TwoTailed(total, w), 0.0), Hits(list, ranks, AtMost(w), 0.0), |list|)
  {
    var one, other, either := AtMost(w), AtLeast(total - w), TwoTailed(total, w);
    assert w < total - w ==> forall x :: !(one(x) && other(x));
    assert w == total - w ==> forall x :: either(x);
    HitsOfEither(list, ranks, one, other, either, 0.0);
    HitsBounds(list, ranks, either, 0.0);
  }

  lemma BothTails(ranks: seq<real>, total: real, w: real)
    requires total == TotalOf(ranks) && w <= total - w
    ensures Doubled(AllHits(ranks, TwoTailed(total, w), 0.0), AllHits(ranks, AtMost(w), 0.0), Pow2(|ranks|))
  {
    TailsAreEqual(ranks, w);
    var list := AllBits(|ranks|);
    assert Hits(list, ranks, AtMost(w), 0.0) == AllHits(ranks, AtMost(w), 0.0);
    TailsOfList(list, ranks, total, w);
  }

  /** The two-sided p-value is twice the one-sided tail, but at most 1. */
  lemma PValueDoublesTail(nz: seq<real>)
    ensures var tail := AllHits(MidRanks(Magnitudes(nz)), AtMost(Statistic(nz)), 0.0);
            PValue(nz) == MinReal(1.0, Share(2 * tail, Pow2(|nz|)))
  {
    var ranks := MidRanks(Magnitudes(nz));
    SelectedComplement(ranks, Positive(nz));
    PValueOfRanks(ranks, TotalOf(ranks), Statistic(nz));
  }

  lemma PValueOfRanks(ranks: seq<real>, total: real, w: real)
    requires total == TotalOf(ranks) && w <= total - w
    ensures Share(AllHits(ranks, TwoTailed(total, w), 0.0), Pow2(|ranks|)) ==
            MinReal(1.0, Share(2 * AllHits(ranks, AtMost(w), 0.0), Pow2(|ranks|)))
  {
    BothTails(ranks, total, w);
    DoubledShare(AllHits(ranks, TwoTailed(total, w), 0.0), AllHits(ranks, AtMost(w), 0.0), Pow2(|ranks|));
  }

  lemma DoubledShare(both: nat, tail: nat, all: nat)
    requires all >= 1 && Doubled(both, tail, all)
    ensures Share(both, all) == MinReal(1.0, Share(2 * tail, all))
  {
    ShareMonotone(both, all, all);
    ShareMonotone(both, 2 * tail, all);
    WholeShare(all);
  }

  lemma WholeShare(all: nat)
    requires all >= 1
    ensures Share(all, all) == 1.0
  {
  }

  lemma ShareMonotone(a: nat, b: nat, all: nat)
    requires all >= 1 && a <= b
    ensures Share(a, all) <= Share(b, all)
  {
  }

  // Swapping treatment and baseline.

  function Negated(diffs: seq<real>): seq<real> {
    seq(|diffs|, i requires 0 <= i < |diffs| => -diffs[i])
  }

  lemma {:induction false} NonZeroOfNegated(diffs: seq<real>)
    ensures NonZero(Negated(diffs)) == Negated(NonZero(diffs))
  {
    if diffs != [] {
      var n := |diffs|;
      NonZeroOfNegated(diffs[..n - 1]);
      assert Negated(diffs)[..n - 1] == Negated(diffs[..n - 1]);
    }
  }

  function Differences(treatment: seq<real>, baseline: seq<real>): (diffs: seq<real>)
    requires |treatment| == |baseline|
  {
    seq(|treatment|, i requires 0 <= i < |treatment| => treatment[i] - baseline[i])
  }

  /** Exchanging the two samples changes neither the statistic nor the p-value. */
  lemma SwapChangesNothing(treatment: seq<real>, baseline: seq<real>)
    requires |treatment| == |baseline|
    ensures var one, other := NonZero(Differences(treatment, baseline)), NonZero(Differences(baseline, treatment));
            Statistic(one) == Statistic(other) && PValue(one) == PValue(other) && |one| == |other|
  {
    var diffs := Differences(treatment, baseline);
    assert Differences(baseline, treatment) == Negated(diffs);
    NonZeroOfNegated(diffs);
    var nz := NonZero(diffs);
    assert Magnitudes(Negated(nz)) == Magnitudes(nz);
    assert Positive(Negated(nz)) == Complement(Positive(nz));
    assert Complement(Positive(Negated(nz))) == Positive(nz);
  }

  // What is tested, without the functions that compute it.

  /** nz lists the non-zero differences, all of them and in order: entry i comes from position at[i]. */
  ghost predicate KeepsNonZero(diffs: seq<real>, nz: seq<real>, at: seq<nat>) {
    && |at| == |nz|
    && (forall i | 0 <= i < |nz| :: at[i] < |diffs| && nz[i] == diffs[at[i]] != 0.0)
    && (forall i, j | 0 <= i < j < |at| :: at[i] < at[j])
    && (forall p: nat | p < |diffs| && diffs[p] != 0.0 :: p in at)
  }

  lemma {:induction false} NonZeroKeeps(diffs: seq<real>) returns (at: seq<nat>)
    ensures KeepsNonZero(diffs, NonZero(diffs), at)
  {
    if diffs == [] {
      at := [];
    } else {
      var n := |diffs| - 1;
      at := NonZeroKeeps(diffs[..n]);
      if diffs[n] != 0.0 {
        assert forall i | 0 <= i < |at| :: at[i] < n;
        at := at + [n];
        assert n in at;
      }
    }
  }

  ghost function SmallerSquares(nz: seq<real>, i: nat): set<nat>
    requires i < |nz|
  {
    set j | j in Below(|nz|) && nz[j] * nz[j] < nz[i] * nz[i]
  }

  ghost function EqualSquares(nz: seq<real>, i: nat): set<nat>
    requires i < |nz|
  {
    set j | j in Below(|nz|) && nz[j] * nz[j] == nz[i] * nz[i]
  }

  /** Each difference's rank is its place among the absolute differences, the mean place where several tie. */
  ghost predicate RanksBySize(nz: seq<real>, ranks: seq<real>) {
    && |ranks| == |nz|
    && forall i: nat | i < |nz| ::
         ranks[i] == |SmallerSquares(nz, i)| as real + (|EqualSquares(nz, i)| + 1) as real / 2.0
  }

  lemma SquareOrder(x: real, y: real)
    requires x >= 0.0 && y >= 0.0
    ensures x < y <==> x * x < y * y
    ensures x == y <==> x * x == y * y
  {
    SquareGrows(x, y);
    SquareGrows(y, x);
  }

  lemma SquareGrows(x: real, y: real)
    requires x >= 0.0 && y >= 0.0
    ensures x < y ==> x * x < y * y
  {
    if x < y {
      assert (y - x) * x >= 0.0;
      assert (y - x) * y > 0.0;
    }
  }

  lemma MagnitudeSquare(nz: seq<real>, i: nat)
    requires i < |nz|
    ensures Magnitudes(nz)[i] >= 0.0 && Magnitudes(nz)[i] * Magnitudes(nz)[i] == nz[i] * nz[i]
  {
  }

  lemma RanksAreBySize(nz: seq<real>)
    ensures RanksBySize(nz, MidRanks(Magnitudes(nz)))
  {
    var sizes := Magnitudes(nz);
    forall i: nat | i < |nz|
      ensures Smaller(sizes, sizes[i]) == SmallerSquares(nz, i) && Equal(sizes, sizes[i]) == EqualSquares(nz, i)
    {
      forall j: nat | j < |nz|
        ensures sizes[j] < sizes[i] <==> nz[j] * nz[j] < nz[i] * nz[i]
        ensures sizes[j] == sizes[i] <==> nz[j] * nz[j] == nz[i] * nz[i]
      {
        MagnitudeSquare(nz, i);
        MagnitudeSquare(nz, j);
        SquareOrder(sizes[j], sizes[i]);
      }
    }
  }

  ghost function PlusSum(nz: seq<real>, ranks: seq<real>): real
    requires |nz| == |ranks|
  {
    if nz == [] then 0.0 else (if nz[0] > 0.0 then ranks[0] else 0.0) + PlusSum(nz[1..], ranks[1..])
  }

  ghost function MinusSum(nz: seq<real>, ranks: seq<real>): real
    requires |nz| == |ranks|
  {
    if nz == [] then 0.0 else (if nz[0] < 0.0 then ranks[0] else 0.0) + MinusSum(nz[1..], ranks[1..])
  }

  /** w is the smaller of the rank sums of the positive and of the negative differences. */
  ghost predicate IsSmallerSum(nz: seq<real>, ranks: seq<real>, w: real)
    requires |nz| == |ranks|
  {
    && w <= PlusSum(nz, ranks) && w <= MinusSum(nz, ranks)
    && (w == PlusSum(nz, ranks) || w == MinusSum(nz, ranks))
  }

  lemma {:induction false} SelectedBySign(nz: seq<real>, ranks: seq<real>)
    requires |nz| == |ranks| && forall i | 0 <= i < |nz| :: nz[i] != 0.0
    ensures Selected(ranks, Positive(nz)) == PlusSum(nz, ranks)
    ensures Selected(ranks, Complement(Positive(nz))) == MinusSum(nz, ranks)
  {
    if nz != [] {
      SelectedBySign(nz[1..], ranks[1..]);
      assert Positive(nz)[1..] == Positive(nz[1..]);
      assert Complement(Positive(nz))[1..] == Complement(Positive(nz[1..]));
    }
  }

  lemma StatisticIsSmallerSum(nz: seq<real>)
    requires forall i | 0 <= i < |nz| :: nz[i] != 0.0
    ensures IsSmallerSum(nz, MidRanks(Magnitudes(nz)), Statistic(nz))
  {
    SelectedBySign(nz, MidRanks(Magnitudes(nz)));
  }

  /** The sign vectors of which one of the two rank sums is at most w. */
  ghost function Extreme(ranks: seq<real>, w: real): set<seq<bool>> {
    set bits | bits in AllBits(|ranks|) && IsExtreme(ranks, bits, w)
  }

  ghost predicate IsExtreme(ranks: seq<real>, bits: seq<bool>, w: real) {
    |bits| == |ranks| && (Selected(ranks, bits) <= w || Selected(ranks, Complement(bits)) <= w)
  }

  ghost predicate AllDifferent(list: seq<seq<bool>>) {
    forall i, j | 0 <= i < j < |list| :: list[i] != list[j]
  }

  lemma {:induction false} AllBitsDiffer(n: nat)
    ensures AllDifferent(AllBits(n))
  {
    if n > 0 {
      AllBitsDiffer(n - 1);
      PrefixesDiffer(AllBits(n - 1));
    }
  }

  lemma PrefixesDiffer(list: seq<seq<bool>>)
    requires AllDifferent(list)
    ensures AllDifferent(Prefixed(false, list) + Prefixed(true, list))
  {
    PrefixDiffers(false, list);
    PrefixDiffers(true, list);
    var zero, one := Prefixed(false, list), Prefixed(true, list);
    forall i, j | 0 <= i < |zero| && 0 <= j < |one| ensures zero[i] != one[j] {
      assert !zero[i][0] && one[j][0];
    }
  }

  lemma PrefixDiffers(b: bool, list: seq<seq<bool>>)
    requires AllDifferent(list)
    ensures AllDifferent(Prefixed(b, list))
  {
    var prefixed := Prefixed(b, list);
    forall i, j | 0 <= i < j < |prefixed| ensures prefixed[i] != prefixed[j] {
      assert prefixed[i][1..] == list[i] && prefixed[j][1..] == list[j];
    }
  }

  lemma {:induction false} HitsAreExtreme(list: seq<seq<bool>>, ranks: seq<real>, w: real)
    requires AllDifferent(list) && forall i | 0 <= i < |list| :: |list[i]| == |ranks|
    ensures Hits(list, ranks, TwoTailed(TotalOf(ranks), w), 0.0) ==
            |set bits | bits in list && IsExtreme(ranks, bits, w)|
  {
    if list != [] {
      var before, last := list[..|list| - 1], list[|list| - 1];
      HitsAreExtreme(before, ranks, w);
      TwoTailedIsMinimum(ranks, last, w);
      assert 0.0 + Selected(ranks, last) == Selected(ranks, last);
      var all := set bits | bits in list && IsExtreme(ranks, bits, w);
      assert list == before + [last];
      assert all - {last} == set bits | bits in before && IsExtreme(ranks, bits, w);
    }
  }

  lemma AllHitsAreExtreme(ranks: seq<real>, w: real)
    ensures AllHits(ranks, TwoTailed(TotalOf(ranks), w), 0.0) == |Extreme(ranks, w)|
  {
    AllBitsDiffer(|ranks|);
    HitsAreExtreme(AllBits(|ranks|), ranks, w);
  }

  /** p is the fraction of sign vectors that are extreme. */
  ghost predicate IsExtremeShare(ranks: seq<real>, w: real, p: real) {
    p == |Extreme(ranks, w)| as real / Pow2(|ranks|) as real
  }

  lemma PValueIsExtremeShare(nz: seq<real>)
    ensures IsExtremeShare(MidRanks(Magnitudes(nz)), Statistic(nz), PValue(nz))
  {
    AllHitsAreExtreme(MidRanks(Magnitudes(nz)), Statistic(nz));
  }

  /** What the test is about: the non-zero differences, their positions, their ranks, and the smaller rank sum. */
  ghost predicate IsSignedRank(diffs: seq<real>, nz: seq<real>, at: seq<nat>, ranks: seq<real>, w: real) {
    KeepsNonZero(diffs, nz, at) && RanksBySize(nz, ranks) && IsSmallerSum(nz, ranks, w)
  }

  lemma StatisticIsSignedRank(diffs: seq<real>) returns (at: seq<nat>)
    ensures var nz := NonZero(diffs);
            IsSignedRank(diffs, nz, at, MidRanks(Magnitudes(nz)), Statistic(nz))
  {
    at := NonZeroKeeps(diffs);
    RanksAreBySize(NonZero(diffs));
    StatisticIsSmallerSum(NonZero(diffs));
  }

  // The program.

  /** Beyond 25 non-zero differences the source switches to a normal approximation. */
  datatype Outcome = Exact(w: real, p: real, n: nat) | Approximate(w: real, n: nat)

  method SelectedSum(ranks: seq<real>, bits: seq<bool>) returns (sum: real)
    requires |ranks| == |bits|
    ensures sum == Selected(ranks, bits)
  {
    sum := 0.0;
    for i := 0 to |ranks|
      invariant sum + Selected(ranks[i..], bits[i..]) == Selected(ranks, bits)
    {
      assert ranks[i..][1..] == ranks[i + 1..] && bits[i..][1..] == bits[i + 1..];
      if bits[i] {
        sum := sum + ranks[i];
      }
    }
  }

  lemma HitsNext(list: seq<seq<bool>>, ranks: seq<real>, test: real -> bool, i: nat)
    requires i < |list| && forall k | 0 <= k < |list| :: |list[k]| == |ranks|
    ensures Hits(list[..i + 1], ranks, test, 0.0) ==
            Hits(list[..i], ranks, test, 0.0) + if test(Selected(ranks, list[i])) then 1 else 0
  {
    assert list[..i + 1][..i] == list[..i];
    assert 0.0 + Selected(ranks, list[i]) == Selected(ranks, list[i]);
  }

  method CountExtreme(ranks: seq<real>, total: real, w: real) returns (count: nat, denom: nat)
    ensures count == AllHits(ranks, TwoTailed(total, w), 0.0) && denom == Pow2(|ranks|)
  {
    var all := AllBits(|ranks|);
    count, denom := 0, 0;
    for i := 0 to |all|
      invariant denom == i
      invariant count == Hits(all[..i], ranks, TwoTailed(total, w), 0.0)
    {
      HitsNext(all, ranks, TwoTailed(total, w), i);
      var wp := SelectedSum(ranks, all[i]);
      denom := denom + 1;
      if wp <= w || wp >= total - w {
        count := count + 1;
      }
    }
    assert all[..|all|] == all;
  }

  /** `nz`, `at` and `ranks` say what the result is about: the non-zero differences, their positions and their ranks. */
  method SignedRank(diffs: seq<real>)
    returns (result: Outcome, ghost nz: seq<real>, ghost at: seq<nat>, ghost ranks: seq<real>)
    ensures IsSignedRank(diffs, nz, at, ranks, result.w) && result.n == |nz|
    ensures result.Exact? ==> IsExtremeShare(ranks, result.w, result.p)
    ensures nz == NonZero(diffs)
    ensures NonZero(diffs) == [] ==> result == Exact(0.0, 1.0, 0)
    ensures result.w == Statistic(NonZero(diffs))
    ensures result.Exact? <==> |NonZero(diffs)| <= 25
    ensures result.Exact? ==> result.p == PValue(NonZero(diffs)) && 0.0 < result.p <= 1.0
  {
    var nonZero := NonZero(diffs);
    var n := |nonZero|;
    nz, ranks := nonZero, MidRanks(Magnitudes(nonZero));
    at := StatisticIsSignedRank(diffs);
    PValueInUnit(nz);
    PValueIsExtremeShare(nz);
    if n == 0 {
      NoDifferences(nz);
      result := Exact(0.0, 1.0, 0);
      return;
    }
    var averaged := RankAverage(Magnitudes(nonZero));
    var wPlus := SelectedSum(averaged, Positive(nonZero));
    var wMinus := SelectedSum(averaged, Negative(nonZero));
    assert Negative(nz) == Complement(Positive(nz));
    var w := MinReal(wPlus, wMinus);
    if n <= 25 {
      var count, denom := CountExtreme(averaged, TotalOf(averaged), w);
      var p := Share(count, denom);
      result := Exact(w, MaxReal(MinReal(p, 1.0), 0.0), n);
      return;
    }
    result := Approximate(w, n);
  }

  lemma NoDifferences(nz: seq<real>)
    requires nz == []
    ensures Statistic(nz) == 0.0 && PValue(nz) == 1.0
  {
    var ranks := MidRanks(Magnitudes(nz));
    assert ranks == [];
    SingleHit(TwoTailed(TotalOf(ranks), Statistic(nz)), 0.0);
  }
}
