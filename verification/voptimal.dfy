/** V-Optimal histograms: the dynamic program of `build_voptimal`, over the reals. */
module VOptimal {
  import opened Machine
  import opened Sorting
  import opened Histogram

  // The error a bucketing is judged by.

  function SumOf(f: seq<nat>, i: nat, j: nat): real
    requires i <= j <= |f|
    decreases j
  {
    if i == j then 0.0 else SumOf(f, i, j - 1) + f[j - 1] as real
  }

  function SumOfSquares(f: seq<nat>, i: nat, j: nat): real
    requires i <= j <= |f|
    decreases j
  {
    if i == j then 0.0 else SumOfSquares(f, i, j - 1) + f[j - 1] as real * f[j - 1] as real
  }

  /** The sum of squared deviations of f[i..j] from m. */
  function Deviation(f: seq<nat>, i: nat, j: nat, m: real): real
    requires i <= j <= |f|
    decreases j
  {
    if i == j then 0.0
    else Deviation(f, i, j - 1, m) + (f[j - 1] as real - m) * (f[j - 1] as real - m)
  }

  /** The squared error of one bucket: deviations from its mean. */
  function SSE(f: seq<nat>, i: nat, j: nat): real
    requires i < j <= |f|
  {
    Deviation(f, i, j, SumOf(f, i, j) / (j - i) as real)
  }

  /** nb + 1 cut points, strictly increasing from 0 to j. */
  ghost predicate IsSplit(cuts: seq<nat>, nb: nat, j: nat) {
    && |cuts| == nb + 1 && cuts[0] == 0 && cuts[nb] == j
    && forall t | 0 <= t < nb :: cuts[t] < cuts[t + 1]
  }

  ghost predicate Ascends(cuts: seq<nat>, n: nat) {
    && cuts != [] && cuts[|cuts| - 1] <= n
    && forall t | 0 <= t < |cuts| - 1 :: cuts[t] < cuts[t + 1]
  }

  ghost function TotalSSE(f: seq<nat>, cuts: seq<nat>): real
    requires Ascends(cuts, |f|)
    decreases |cuts|
  {
    if |cuts| == 1 then 0.0
    else
      assert cuts[|cuts| - 2] < cuts[|cuts| - 2 + 1];
      TotalSSE(f, cuts[..|cuts| - 1]) + SSE(f, cuts[|cuts| - 2], cuts[|cuts| - 1])
  }

  // The prefix-sum formula.

  lemma {:induction false} SumSplits(f: seq<nat>, i: nat, j: nat)
    requires i <= j <= |f|
    ensures SumOf(f, 0, j) == SumOf(f, 0, i) + SumOf(f, i, j)
    ensures SumOfSquares(f, 0, j) == SumOfSquares(f, 0, i) + SumOfSquares(f, i, j)
    decreases j
  {
    if i < j {
      SumSplits(f, i, j - 1);
    }
  }

  /** Squared deviation from m of n items with sum s and sum of squares q. */
  function Expanded(q: real, s: real, n: real, m: real): real {
    q - 2.0 * m * s + n * (m * m)
  }

  lemma ExpandedNone(m: real)
    ensures Expanded(0.0, 0.0, 0.0, m) == 0.0
  {
  }

  lemma ExpandStep(q: real, s: real, n: real, x: real, m: real)
    ensures Expanded(q, s, n, m) + (x - m) * (x - m) == Expanded(q + x * x, s + x, n + 1.0, m)
  {
  }

  lemma UnfoldLast(f: seq<nat>, i: nat, j: nat, m: real)
    requires i < j <= |f|
    ensures var x := f[j - 1] as real;
            && SumOf(f, i, j) == SumOf(f, i, j - 1) + x
            && SumOfSquares(f, i, j) == SumOfSquares(f, i, j - 1) + x * x
            && Deviation(f, i, j, m) == Deviation(f, i, j - 1, m) + (x - m) * (x - m)
  {
  }

  /** Deviation and expansion agree on every range. */
  ghost predicate ExpandsAt(f: seq<nat>, i: nat, j: nat, m: real)
    requires i <= j <= |f|
  {
    Deviation(f, i, j, m) == Expanded(SumOfSquares(f, i, j), SumOf(f, i, j), (j - i) as real, m)
  }

  lemma ExpandsNext(f: seq<nat>, i: nat, j: nat, m: real)
    requires i < j <= |f| && ExpandsAt(f, i, j - 1, m)
    ensures ExpandsAt(f, i, j, m)
  {
    var x, q, s, n := f[j - 1] as real, SumOfSquares(f, i, j - 1), SumOf(f, i, j - 1), (j - 1 - i) as real;
    UnfoldLast(f, i, j, m);
    ExpandStep(q, s, n, x, m);
    assert (j - i) as real == n + 1.0;
  }

  lemma {:induction false} DeviationExpands(f: seq<nat>, i: nat, j: nat, m: real)
    requires i <= j <= |f|
    ensures ExpandsAt(f, i, j, m)
    decreases j
  {
    if i < j {
      DeviationExpands(f, i, j - 1, m);
      ExpandsNext(f, i, j, m);
    } else {
      ExpandedNone(m);
    }
  }

  lemma {:induction false} DeviationNonnegative(f: seq<nat>, i: nat, j: nat, m: real)
    requires i <= j <= |f|
    ensures Deviation(f, i, j, m) >= 0.0
    decreases j
  {
    if i < j {
      DeviationNonnegative(f, i, j - 1, m);
      Square(f[j - 1] as real - m);
    }
  }

  lemma Square(x: real)
    ensures x * x >= 0.0
  {
  }

  /** Around the mean the expansion is the textbook formula. */
  lemma MeanExpansion(q: real, s: real, c: nat)
    requires c > 0 && Expanded(q, s, c as real, s / c as real) >= 0.0
    ensures ErrorFrom(s, q, c) == Expanded(q, s, c as real, s / c as real)
  {
  }

  /** Squared error from the sum s, the sum of squares q and the number c of a bucket's items. */
  function ErrorFrom(s: real, q: real, c: nat): real
    requires c > 0
  {
    MaxReal(q - s * s / c as real, 0.0)
  }

  /** The closure `sse`, from prefix sums of the frequencies and of their squares. */
  function PrefixSSE(pf: seq<real>, pf2: seq<real>, i: nat, j: nat): real
    requires i < j < |pf| == |pf2|
  {
    ErrorFrom(pf[j] - pf[i], pf2[j] - pf2[i], j - i)
  }

  ghost predicate ArePrefixSums(f: seq<nat>, pf: seq<real>, pf2: seq<real>) {
    && |pf| == |pf2| == |f| + 1
    && forall i | 0 <= i <= |f| :: pf[i] == SumOf(f, 0, i) && pf2[i] == SumOfSquares(f, 0, i)
  }

  /** Prefix sums give the bucket's squared error exactly, and clamping at zero changes nothing. */
  lemma PrefixSSEIsSSE(f: seq<nat>, pf: seq<real>, pf2: seq<real>, i: nat, j: nat)
    requires ArePrefixSums(f, pf, pf2) && i < j <= |f|
    ensures PrefixSSE(pf, pf2, i, j) == SSE(f, i, j) >= 0.0
  {
    var s, q, c := SumOf(f, i, j), SumOfSquares(f, i, j), j - i;
    SumSplits(f, i, j);
    DeviationExpands(f, i, j, s / c as real);
    DeviationNonnegative(f, i, j, s / c as real);
    MeanExpansion(q, s, c);
    assert pf[j] - pf[i] == s && pf2[j] - pf2[i] == q;
  }

  // The dynamic program as a function.

  datatype Cost = Finite(value: real) | Infinite

  function Add(a: Cost, x: real): Cost {
    if a.Finite? then Finite(a.value + x) else Infinite
  }

  predicate Less(a: Cost, b: Cost) {
    a.Finite? && (b.Finite? ==> a.value < b.value)
  }

  /** The cost of the best split of the first j items into nb buckets. */
  ghost function DP(f: seq<nat>, nb: nat, j: nat): Cost
    requires j <= |f|
    decreases nb, j + 1
  {
    if nb == 0 then if j == 0 then Finite(0.0) else Infinite
    else if j < nb then Infinite
    else Choose(f, nb, j, j).0
  }

  /** The best cost, and its last cut, among last cuts nb - 1 .. i. */
  ghost function Choose(f: seq<nat>, nb: nat, j: nat, i: nat): (Cost, nat)
    requires 0 < nb <= j <= |f| && nb - 1 <= i <= j
    decreases nb, i
  {
    if i == nb - 1 then (Infinite, nb - 1)
    else
      var best := Choose(f, nb, j, i - 1);
      var v := Add(DP(f, nb - 1, i - 1), SSE(f, i - 1, j));
      if Less(v, best.0) then (v, i - 1) else best
  }

  ghost function LastCut(f: seq<nat>, nb: nat, j: nat): nat
    requires 0 < nb <= j <= |f|
  {
    Choose(f, nb, j, j).1
  }

  /** The cuts read back from the table. */
  ghost function Backtrack(f: seq<nat>, nb: nat, j: nat): seq<nat>
    requires j <= |f| && nb <= j
  {
    if nb == 0 then [j]
    else
      ChooseInRange(f, nb, j, j);
      Backtrack(f, nb - 1, LastCut(f, nb, j)) + [j]
  }

  lemma {:induction false} ChooseInRange(f: seq<nat>, nb: nat, j: nat, i: nat)
    requires 0 < nb <= j <= |f| && nb - 1 <= i <= j
    ensures nb - 1 <= Choose(f, nb, j, i).1 <= j - 1
  {
    if i > nb - 1 {
      ChooseInRange(f, nb, j, i - 1);
    }
  }

  // Optimality.

  /** The choice is at most every candidate with a finite cost. */
  lemma {:induction false} ChooseIsLeast(f: seq<nat>, nb: nat, j: nat, i: nat, x: nat)
    requires 0 < nb <= j <= |f| && nb - 1 <= x < i <= j && DP(f, nb - 1, x).Finite?
    ensures var best := Choose(f, nb, j, i).0;
            best.Finite? && best.value <= DP(f, nb - 1, x).value + SSE(f, x, j)
  {
    if x < i - 1 {
      ChooseIsLeast(f, nb, j, i - 1, x);
    }
  }

  /** The choice is one of the candidates. */
  lemma {:induction false} ChooseIsCandidate(f: seq<nat>, nb: nat, j: nat, i: nat)
    requires 0 < nb <= j <= |f| && nb - 1 <= i <= j
    ensures var (best, at) := Choose(f, nb, j, i);
            nb - 1 <= at < j && (best.Finite? ==> best == Add(DP(f, nb - 1, at), SSE(f, at, j)))
  {
    if i > nb - 1 {
      ChooseIsCandidate(f, nb, j, i - 1);
    }
  }

  lemma SplitStep(cuts: seq<nat>, nb: nat, j: nat)
    requires nb > 0 && IsSplit(cuts, nb, j)
    ensures IsSplit(cuts[..nb], nb - 1, cuts[nb - 1]) && cuts[nb - 1] < j
    ensures nb - 1 <= cuts[nb - 1]
    decreases nb
  {
    assert cuts[nb - 1] < cuts[nb - 1 + 1];
    if nb > 1 {
      SplitStep(cuts[..nb], nb - 1, cuts[nb - 1]);
    }
  }

  lemma {:induction false} SplitLongEnough(cuts: seq<nat>, nb: nat, j: nat)
    requires IsSplit(cuts, nb, j)
    ensures nb <= j
  {
    if nb > 0 {
      SplitStep(cuts, nb, j);
      SplitLongEnough(cuts[..nb], nb - 1, cuts[nb - 1]);
    }
  }

  lemma SplitAscends(cuts: seq<nat>, nb: nat, j: nat, n: nat)
    requires IsSplit(cuts, nb, j) && j <= n
    ensures Ascends(cuts, n)
  {
  }

  /** No split of the first j items into nb buckets costs less than the table says. */
  lemma {:induction false} NoSplitIsCheaper(f: seq<nat>, nb: nat, j: nat, cuts: seq<nat>)
    requires j <= |f| && IsSplit(cuts, nb, j)
    ensures Ascends(cuts, |f|)
    ensures DP(f, nb, j).Finite? && DP(f, nb, j).value <= TotalSSE(f, cuts)
  {
    if nb > 0 {
      SplitStep(cuts, nb, j);
      var x := cuts[nb - 1];
      NoSplitIsCheaper(f, nb - 1, x, cuts[..nb]);
      SplitLongEnough(cuts, nb, j);
      ChooseIsLeast(f, nb, j, j, x);
      assert cuts[..|cuts| - 1] == cuts[..nb];
    }
  }

  /** Whenever a split exists, the backtracked cuts are one, and they cost what the table says. */
  lemma {:induction false} BacktrackAttains(f: seq<nat>, nb: nat, j: nat)
    requires nb <= j <= |f| && (nb == 0 ==> j == 0)
    ensures IsSplit(Backtrack(f, nb, j), nb, j) && Ascends(Backtrack(f, nb, j), |f|)
    ensures DP(f, nb, j) == Finite(TotalSSE(f, Backtrack(f, nb, j)))
    decreases nb
  {
    if nb > 0 {
      ChooseIsCandidate(f, nb, j, j);
      SomeChoice(f, nb, j);
      var at := LastCut(f, nb, j);
      assert nb == 1 ==> at == 0;
      BacktrackAttains(f, nb - 1, at);
      var before, cuts := Backtrack(f, nb - 1, at), Backtrack(f, nb, j);
      assert cuts == before + [j] && cuts[..|cuts| - 1] == before;
      forall t | 0 <= t < nb ensures cuts[t] < cuts[t + 1] {
        assert t < nb - 1 ==> before[t] < before[t + 1];
      }
      SplitAscends(cuts, nb, j, |f|);
    }
  }

  /** With at least as many items as buckets some last cut has finite cost. */
  lemma {:induction false} SomeChoice(f: seq<nat>, nb: nat, j: nat)
    requires 0 < nb <= j <= |f|
    ensures DP(f, nb, j).Finite?
    ensures nb == 1 ==> LastCut(f, nb, j) == 0
    decreases nb
  {
    if nb > 1 {
      SomeChoice(f, nb - 1, nb - 1);
    }
    ChooseIsLeast(f, nb, j, j, nb - 1);
    ChooseIsCandidate(f, nb, j, j);
  }

  // Which of the best splits is taken.

  /** Every last cut before the chosen one is dearer. */
  lemma {:induction false} ChooseIsFirst(f: seq<nat>, nb: nat, j: nat, i: nat, x: nat)
    requires 0 < nb <= j <= |f| && nb - 1 <= x < i <= j
    requires Choose(f, nb, j, i).0.Finite? && x < Choose(f, nb, j, i).1
    ensures DP(f, nb - 1, x).Finite? ==> Choose(f, nb, j, i).0.value < DP(f, nb - 1, x).value + SSE(f, x, j)
  {
    var v, best := Add(DP(f, nb - 1, i - 1), SSE(f, i - 1, j)), Choose(f, nb, j, i - 1);
    if Less(v, best.0) {
      if DP(f, nb - 1, x).Finite? {
        ChooseIsLeast(f, nb, j, i - 1, x);
      }
    } else if x < i - 1 {
      ChooseIsFirst(f, nb, j, i - 1, x);
    } else {
      ChooseBelow(f, nb, j, i - 1);
    }
  }

  lemma {:induction false} ChooseBelow(f: seq<nat>, nb: nat, j: nat, i: nat)
    requires 0 < nb <= j <= |f| && nb - 1 <= i <= j
    ensures Choose(f, nb, j, i).1 < i || Choose(f, nb, j, i).1 == nb - 1
  {
    if i > nb - 1 {
      ChooseBelow(f, nb, j, i - 1);
    }
  }

  /** At the last cut in which two splits differ, the first has the smaller. */
  ghost predicate CutsEarlier(cuts: seq<nat>, other: seq<nat>) {
    exists t :: 0 <= t < |cuts| && CutsEarlierAt(cuts, other, t)
  }

  ghost predicate CutsEarlierAt(cuts: seq<nat>, other: seq<nat>, t: nat) {
    |cuts| == |other| && t < |cuts| && cuts[t] < other[t] && cuts[t + 1..] == other[t + 1..]
  }

  /** A best split's last cut is a best last cut, after a best split of what comes before it. */
  lemma BestLastSplit(f: seq<nat>, nb: nat, j: nat, other: seq<nat>)
    requires 0 < nb <= j <= |f| && IsSplit(other, nb, j) && Ascends(other, |f|)
    requires DP(f, nb, j) == Finite(TotalSSE(f, other))
    ensures IsSplit(other[..nb], nb - 1, other[nb - 1]) && Ascends(other[..nb], |f|)
    ensures nb - 1 <= other[nb - 1] && DP(f, nb - 1, other[nb - 1]) == Finite(TotalSSE(f, other[..nb]))
    ensures LastCut(f, nb, j) <= other[nb - 1]
  {
    var before, x := other[..nb], other[nb - 1];
    SplitStep(other, nb, j);
    NoSplitIsCheaper(f, nb - 1, x, before);
    assert other[..|other| - 1] == before;
    ChooseIsLeast(f, nb, j, j, x);
    if x < LastCut(f, nb, j) {
      ChooseIsFirst(f, nb, j, j, x);
    }
  }

  lemma ExtendEarlier(cuts: seq<nat>, other: seq<nat>, j: nat)
    requires CutsEarlier(cuts, other)
    ensures CutsEarlier(cuts + [j], other + [j])
  {
    var t: nat :| t < |cuts| && CutsEarlierAt(cuts, other, t);
    assert (cuts + [j])[t + 1..] == cuts[t + 1..] + [j] && (other + [j])[t + 1..] == other[t + 1..] + [j];
    assert CutsEarlierAt(cuts + [j], other + [j], t);
  }

  lemma LastEarlier(cuts: seq<nat>, other: seq<nat>, j: nat)
    requires |cuts| == |other| > 0 && cuts[|cuts| - 1] < other[|cuts| - 1]
    ensures CutsEarlier(cuts + [j], other + [j])
  {
    var t := |cuts| - 1;
    assert (cuts + [j])[t + 1..] == [j] == (other + [j])[t + 1..];
    assert CutsEarlierAt(cuts + [j], other + [j], t);
  }

  /** Of the splits with the least error the backtracked one cuts earliest, looking from the last cut back. */
  lemma {:induction false} BacktrackIsEarliest(f: seq<nat>, nb: nat, j: nat, other: seq<nat>)
    requires nb <= j <= |f| && (nb == 0 ==> j == 0) && IsSplit(other, nb, j) && Ascends(other, |f|)
    requires DP(f, nb, j) == Finite(TotalSSE(f, other))
    ensures other == Backtrack(f, nb, j) || CutsEarlier(Backtrack(f, nb, j), other)
    decreases nb
  {
    if nb > 0 {
      BestLastSplit(f, nb, j, other);
      var before, x, at := other[..nb], other[nb - 1], LastCut(f, nb, j);
      assert other == before + [j];
      ChooseInRange(f, nb, j, j);
      BacktrackEnds(f, nb - 1, at);
      if at < x {
        LastEarlier(Backtrack(f, nb - 1, at), before, j);
      } else {
        BacktrackIsEarliest(f, nb - 1, x, before);
        if before != Backtrack(f, nb - 1, at) {
          ExtendEarlier(Backtrack(f, nb - 1, at), before, j);
        }
      }
    }
  }

  lemma {:induction false} BacktrackEnds(f: seq<nat>, nb: nat, j: nat)
    requires nb <= j <= |f|
    ensures |Backtrack(f, nb, j)| == nb + 1 && Backtrack(f, nb, j)[nb] == j
    decreases nb
  {
    if nb > 0 {
      ChooseInRange(f, nb, j, j);
      BacktrackEnds(f, nb - 1, LastCut(f, nb, j));
    }
  }

  // The program.

  /** The first i + 1 prefix sums of the frequencies and of their squares. */
  ghost predicate PrefixesUpTo(f: seq<nat>, i: nat, sums: seq<real>, squares: seq<real>)
    requires i <= |f|
  {
    && |sums| == |squares| == i + 1
    && forall t | 0 <= t <= i :: sums[t] == SumOf(f, 0, t) && squares[t] == SumOfSquares(f, 0, t)
  }

  lemma NextPrefix(f: seq<nat>, i: nat, sums: seq<real>, squares: seq<real>)
    requires i < |f| && PrefixesUpTo(f, i, sums, squares)
    ensures var x := f[i] as real;
            PrefixesUpTo(f, i + 1, sums + [sums[i] + x], squares + [squares[i] + x * x])
  {
  }

  method PrefixSums(f: seq<nat>) returns (pf: array<real>, pf2: array<real>)
    ensures fresh(pf) && fresh(pf2) && ArePrefixSums(f, pf[..], pf2[..])
  {
    var k := |f|;
    pf, pf2 := new real[k + 1](_ => 0.0), new real[k + 1](_ => 0.0);
    assert pf != pf2;
    ghost var sums, squares := [0.0], [0.0];
    for i := 0 to k
      invariant pf[..i + 1] == sums && pf2[..i + 1] == squares
      invariant PrefixesUpTo(f, i, sums, squares)
    {
      NextPrefix(f, i, sums, squares);
      var x := f[i] as real;
      pf[i + 1] := pf[i] + x;
      pf2[i + 1] := pf2[i] + x * x;
      sums, squares := sums + [sums[i] + x], squares + [squares[i] + x * x];
      assert pf[..i + 1 + 1] == pf[..i + 1] + [pf[i + 1]];
      assert pf2[..i + 1 + 1] == pf2[..i + 1] + [pf2[i + 1]];
    }
    assert pf[..] == sums && pf2[..] == squares;
  }

  ghost function Row<T>(table: array2<T>, nb: nat): (row: seq<T>)
    requires nb < table.Length0
    reads table
    ensures |row| == table.Length1
  {
    seq(table.Length1, x requires 0 <= x < table.Length1 reads table => table[nb, x])
  }

  /** Row nb of the tables is filled for items below j and untouched from there on. */
  ghost predicate RowFilled(f: seq<nat>, costs: seq<Cost>, cuts: seq<nat>, nb: nat, j: nat) {
    && |costs| == |cuts| == |f| + 1 && j <= |f| + 1
    && (forall x | 0 <= x < j :: costs[x] == DP(f, nb, x))
    && (forall x | j <= x <= |f| :: costs[x] == Infinite)
    && (forall x | 0 < nb <= x < j :: cuts[x] == LastCut(f, nb, x))
  }

  ghost predicate RowDone(f: seq<nat>, costs: seq<Cost>, cuts: seq<nat>, nb: nat) {
    RowFilled(f, costs, cuts, nb, |f| + 1)
  }

  ghost predicate CostsDone(f: seq<nat>, costs: seq<Cost>, nb: nat) {
    |costs| == |f| + 1 && forall x | 0 <= x <= |f| :: costs[x] == DP(f, nb, x)
  }

  lemma FillCell(f: seq<nat>, costs: seq<Cost>, cuts: seq<nat>, nb: nat, j: nat)
    requires RowFilled(f, costs, cuts, nb, j) && 0 < nb <= j <= |f|
    ensures var (best, bi) := Choose(f, nb, j, j);
            RowFilled(f, costs[j := best], cuts[j := bi], nb, j + 1)
  {
  }

  /** One entry of the table: the best last cut for nb buckets over the first j items. */
  method BestLastCut(f: seq<nat>, pf: array<real>, pf2: array<real>, dp: array2<Cost>, nb: nat, j: nat)
    returns (best: Cost, bi: nat)
    requires ArePrefixSums(f, pf[..], pf2[..]) && 0 < nb <= j <= |f|
    requires nb <= dp.Length0 && dp.Length1 == |f| + 1 && CostsDone(f, Row(dp, nb - 1), nb - 1)
    ensures (best, bi) == Choose(f, nb, j, j)
  {
    best, bi := Infinite, nb - 1;
    for i := nb - 1 to j
      invariant (best, bi) == Choose(f, nb, j, i)
    {
      PrefixSSEIsSSE(f, pf[..], pf2[..], i, j);
      var sse := ErrorFrom(pf[j] - pf[i], pf2[j] - pf2[i], j - i);
      assert pf[..][j] == pf[j] && pf[..][i] == pf[i] && pf2[..][j] == pf2[j] && pf2[..][i] == pf2[i];
      assert sse == PrefixSSE(pf[..], pf2[..], i, j);
      assert Row(dp, nb - 1)[i] == dp[nb - 1, i];
      var v := Add(dp[nb - 1, i], sse);
      if Less(v, best) {
        best, bi := v, i;
      }
    }
  }

  method FillRow(f: seq<nat>, pf: array<real>, pf2: array<real>, dp: array2<Cost>, bt: array2<nat>, nb: nat)
    requires ArePrefixSums(f, pf[..], pf2[..]) && 0 < nb <= |f|
    requires nb < dp.Length0 == bt.Length0 && dp.Length1 == bt.Length1 == |f| + 1
    requires RowDone(f, Row(dp, nb - 1), Row(bt, nb - 1), nb - 1)
    requires RowFilled(f, Row(dp, nb), Row(bt, nb), nb, nb)
    modifies dp, bt
    ensures RowDone(f, Row(dp, nb), Row(bt, nb), nb)
    ensures forall m | 0 <= m < dp.Length0 && m != nb ::
              Row(dp, m) == old(Row(dp, m)) && Row(bt, m) == old(Row(bt, m))
  {
    for j := nb to |f| + 1
      invariant RowFilled(f, Row(dp, nb), Row(bt, nb), nb, j)
      invariant forall m, x | 0 <= m < dp.Length0 && m != nb && 0 <= x <= |f| ::
                  dp[m, x] == old(dp[m, x]) && bt[m, x] == old(bt[m, x])
    {
      assert Row(dp, nb - 1) == old(Row(dp, nb - 1));
      var best, bi := BestLastCut(f, pf, pf2, dp, nb, j);
      ghost var costs, cuts := Row(dp, nb), Row(bt, nb);
      FillCell(f, costs, cuts, nb, j);
      dp[nb, j] := best;
      bt[nb, j] := bi;
      assert Row(dp, nb) == costs[j := best] && Row(bt, nb) == cuts[j := bi];
    }
  }

  method FillTable(f: seq<nat>, bb: nat) returns (dp: array2<Cost>, bt: array2<nat>)
    requires bb <= |f|
    ensures dp.Length0 == bt.Length0 == bb + 1 && dp.Length1 == bt.Length1 == |f| + 1
    ensures forall nb | 0 <= nb <= bb :: RowDone(f, Row(dp, nb), Row(bt, nb), nb)
  {
    var k := |f|;
    var pf, pf2 := PrefixSums(f);
    dp := new Cost[bb + 1, k + 1]((_, _) => Infinite);
    bt := new nat[bb + 1, k + 1]((_, _) => 0);
    dp[0, 0] := Finite(0.0);
    assert RowDone(f, Row(dp, 0), Row(bt, 0), 0);
    for nb := 1 to bb + 1
      invariant ArePrefixSums(f, pf[..], pf2[..])
      invariant forall m | 0 <= m < nb :: RowDone(f, Row(dp, m), Row(bt, m), m)
      invariant forall m, x | nb <= m <= bb && 0 <= x <= k :: dp[m, x] == Infinite
    {
      ghost var dpBefore := seq(bb + 1, m requires 0 <= m <= bb reads dp => Row(dp, m));
      assert Row(dp, nb) == seq(k + 1, _ => Infinite);
      FillRow(f, pf, pf2, dp, bt, nb);
      forall m, x | nb < m <= bb && 0 <= x <= k ensures dp[m, x] == Infinite {
        assert Row(dp, m) == dpBefore[m];
        assert Row(dp, m)[x] == dp[m, x];
      }
    }
  }

  ghost function Reversed(s: seq<nat>): seq<nat> {
    if s == [] then [] else Reversed(s[1..]) + [s[0]]
  }

  lemma ReversedPush(s: seq<nat>, x: nat)
    ensures Reversed(s + [x]) == [x] + Reversed(s)
  {
    if s != [] {
      assert (s + [x])[1..] == s[1..] + [x];
      ReversedPush(s[1..], x);
    }
  }

  method ReverseSeq(s: seq<nat>) returns (r: seq<nat>)
    ensures r == Reversed(s)
  {
    r := [];
    for i := 0 to |s|
      invariant r == Reversed(s[..i])
    {
      assert s[..i + 1] == s[..i] + [s[i]];
      ReversedPush(s[..i], s[i]);
      r := [s[i]] + r;
    }
    assert s[..|s|] == s;
  }

  /** Reads the cuts back from the table, last first, and reverses them. */
  method ReadCuts(f: seq<nat>, ghost dp: array2<Cost>, bt: array2<nat>, bb: nat) returns (cuts: seq<nat>)
    requires bb <= |f|
    requires dp.Length0 == bt.Length0 == bb + 1 && dp.Length1 == bt.Length1 == |f| + 1
    requires forall nb | 0 <= nb <= bb :: RowDone(f, Row(dp, nb), Row(bt, nb), nb)
    ensures cuts == Backtrack(f, bb, |f|)
  {
    var j := |f|;
    cuts := [j];
    for nb := bb downto 0
      invariant nb <= j <= |f|
      invariant cuts != [] && cuts[|cuts| - 1] == j
      invariant Backtrack(f, bb, |f|) == Backtrack(f, nb, j) + Reversed(cuts[..|cuts| - 1])
    {
      assert RowDone(f, Row(dp, nb + 1), Row(bt, nb + 1), nb + 1);
      assert Row(bt, nb + 1)[j] == bt[nb + 1, j];
      var i := bt[nb + 1, j];
      ChooseInRange(f, nb + 1, j, j);
      ghost var before := cuts;
      cuts := cuts + [i];
      assert cuts[..|cuts| - 1] == before[..|before| - 1] + [j];
      ReversedPush(before[..|before| - 1], j);
      j := i;
    }
    assert cuts == cuts[..|cuts| - 1] + [j];
    ReversedPush(cuts[..|cuts| - 1], j);
    cuts := ReverseSeq(cuts);
  }

  // Anchors: k equi-depth quantiles of the sorted input.

  const VOPT_ANCHORS: nat := 500

  function Offset(n: nat, k: nat, i: nat): nat
    requires k > 0
  {
    if i == k then n else i * n / k
  }

  lemma OffsetsAscend(n: nat, k: nat, i: nat)
    requires 0 < k <= n && i < k
    ensures Offset(n, k, i) < Offset(n, k, i + 1) <= n
  {
    var here := i * n / k;
    Multiple(n, k, i);
    DivAtLeast((i + 1) * n, k, here + 1);
    DivAtMost((i + 1) * n, k, n);
  }

  lemma Multiple(n: nat, k: nat, i: nat)
    requires 0 < k <= n && i < k
    ensures (i * n / k + 1) * k <= (i + 1) * n <= n * k
    ensures i + 1 == k ==> i * n / k < n
  {
    assert i * n / k * k <= i * n;
    MulMonotone(i + 1, n, k, n);
    assert (i + 1) * n == i * n + n;
    assert (i * n / k + 1) * k == i * n / k * k + k;
    DivAtMost(i * n, k, n);
    assert i * n / k == n ==> n * k <= i * n;
  }

  lemma DivAtLeast(x: nat, k: nat, q: nat)
    requires k > 0 && q * k <= x
    ensures q <= x / k
  {
    if x / k < q {
      MulMonotone(x / k + 1, k, q, k);
    }
  }

  lemma DivAtMost(x: nat, k: nat, q: nat)
    requires k > 0 && x <= q * k
    ensures x / k <= q
  {
  }

  function AnchorCount(n: nat, k: nat, i: nat): nat
    requires 0 < k <= n && i < k
  {
    OffsetsAscend(n, k, i);
    Offset(n, k, i + 1) - Offset(n, k, i)
  }

  ghost function AnchorCounts(n: nat, k: nat): (counts: seq<nat>)
    requires 0 < k <= n
    ensures |counts| == k
  {
    seq(k, i requires 0 <= i < k => AnchorCount(n, k, i))
  }

  /** The value at each anchor. */
  ghost function AnchorValues(sorted: seq<real>, k: nat): (values: seq<real>)
    requires 0 < k <= |sorted|
    ensures |values| == k
  {
    seq(k, i requires 0 <= i < k => OffsetsAscend(|sorted|, k, i); sorted[Offset(|sorted|, k, i)])
  }

  lemma {:induction false} AnchorsTile(n: nat, k: nat, i: nat)
    requires 0 < k <= n && i <= k
    ensures Sum(AnchorCounts(n, k)[..i]) == Offset(n, k, i)
  {
    var f := AnchorCounts(n, k);
    if i == 0 {
      assert Offset(n, k, 0) == 0;
    } else {
      AnchorsTile(n, k, i - 1);
      assert f[..i] == f[..i - 1] + [f[i - 1]];
      SumOfConcat(f[..i - 1], [f[i - 1]]);
      assert Sum([f[i - 1]]) == f[i - 1];
    }
  }

  /**
    k anchors over n sorted values, as evenly as whole numbers allow: the first i of them hold
    the largest number of values that is at most i * n / k, and each holds n / k values or one more.
   */
  ghost predicate EquiDepth(n: nat, k: nat, f: seq<nat>) {
    && k > 0 && |f| == k
    && (forall i: nat | i <= k :: IsFloor(Sum(f[..i]), i * n, k))
    && (forall i: nat | i < k :: f[i] == n / k || f[i] == n / k + 1)
  }

  ghost predicate IsFloor(q: nat, x: nat, k: nat) {
    q * k <= x < q * k + k
  }

  /** An anchor's value is the first that no earlier anchor holds. */
  ghost predicate AnchorsAt(sorted: seq<real>, f: seq<nat>, values: seq<real>) {
    && |values| == |f|
    && forall i: nat | i < |f| :: Sum(f[..i]) < |sorted| && values[i] == sorted[Sum(f[..i])]
  }

  lemma DivIsFloor(x: nat, k: nat)
    requires k > 0
    ensures x / k >= 0 && IsFloor(x / k, x, k)
  {
    assert x == x / k * k + x % k;
  }

  lemma LessFactor(a: nat, b: nat, k: nat)
    requires a * k < b * k
    ensures a < b
  {
    if b <= a {
      MulMonotone(b, k, a, k);
    }
  }

  lemma FloorStep(a: nat, b: nat, d: nat, x: nat, n: nat, k: nat)
    requires k > 0 && IsFloor(a, x, k) && IsFloor(b, x + n, k) && IsFloor(d, n, k)
    ensures a + d <= b <= a + d + 1
  {
    assert (a + d) * k == a * k + d * k;
    assert (b + 1) * k == b * k + k;
    assert (a + d + 2) * k == a * k + k + (d * k + k);
    LessFactor(a + d, b + 1, k);
    LessFactor(b, a + d + 2, k);
  }

  lemma OffsetIsFloor(n: nat, k: nat, i: nat)
    requires 0 < k <= n && i <= k
    ensures 0 <= Offset(n, k, i) && IsFloor(Offset(n, k, i), i * n, k)
  {
    if i < k {
      DivIsFloor(i * n, k);
    }
  }

  lemma AnchorsAreEquiDepth(n: nat, k: nat)
    requires 0 < k <= n
    ensures EquiDepth(n, k, AnchorCounts(n, k))
  {
    var f := AnchorCounts(n, k);
    forall i: nat | i <= k ensures IsFloor(Sum(f[..i]), i * n, k) {
      AnchorsTile(n, k, i);
      OffsetIsFloor(n, k, i);
    }
    forall i: nat | i < k ensures f[i] == n / k || f[i] == n / k + 1 {
      OffsetIsFloor(n, k, i);
      OffsetIsFloor(n, k, i + 1);
      DivIsFloor(n, k);
      assert (i + 1) * n == i * n + n;
      FloorStep(Offset(n, k, i), Offset(n, k, i + 1), n / k, i * n, n, k);
    }
  }

  lemma AnchorsStartRuns(sorted: seq<real>, k: nat)
    requires 0 < k <= |sorted|
    ensures AnchorsAt(sorted, AnchorCounts(|sorted|, k), AnchorValues(sorted, k))
  {
    forall i: nat | i < k
      ensures Sum(AnchorCounts(|sorted|, k)[..i]) < |sorted|
      ensures AnchorValues(sorted, k)[i] == sorted[Sum(AnchorCounts(|sorted|, k)[..i])]
    {
      AnchorsTile(|sorted|, k, i);
      OffsetsAscend(|sorted|, k, i);
    }
  }

  lemma {:induction false} OffsetsMonotone(n: nat, k: nat, i: nat, j: nat)
    requires 0 < k <= n && i <= j <= k
    ensures Offset(n, k, i) <= Offset(n, k, j)
    decreases j
  {
    if i < j {
      OffsetsMonotone(n, k, i, j - 1);
      OffsetsAscend(n, k, j - 1);
    }
  }

  method Anchors(sorted: seq<real>, k: nat) returns (av: seq<real>, ac: seq<nat>)
    requires 0 < k <= |sorted|
    ensures av == AnchorValues(sorted, k) && ac == AnchorCounts(|sorted|, k)
  {
    var n := |sorted|;
    av, ac := [], [];
    for i := 0 to k
      invariant av == AnchorValues(sorted, k)[..i] && ac == AnchorCounts(n, k)[..i]
    {
      OffsetsAscend(n, k, i);
      av := av + [sorted[Offset(n, k, i)]];
      ac := ac + [AnchorCount(n, k, i)];
    }
  }

  /** The right end of a bucket whose last anchor is just before `cut`. */
  function RightEnd(av: seq<real>, sorted: seq<real>, cut: nat): real
    requires sorted != []
  {
    if cut < |av| then av[cut] else sorted[|sorted| - 1]
  }

  /** The histogram that a choice of cuts stands for. */
  ghost predicate Buckets(sorted: seq<real>, av: seq<real>, ac: seq<nat>, cuts: seq<nat>, h: BucketHist)
    requires sorted != [] && av != []
  {
    && |cuts| == |h.boundaries| == |h.counts| + 1
    && h.boundaries[0] == av[0]
    && (forall i | 0 < i < |cuts| :: h.boundaries[i] == RightEnd(av, sorted, cuts[i]))
    && (forall b | 0 <= b < |h.counts| :: Counts(ac, cuts, b, h.counts[b]))
  }

  /** The total of the anchors between one cut and the next. */
  ghost predicate Counts(ac: seq<nat>, cuts: seq<nat>, b: nat, count: nat)
    requires b + 1 < |cuts|
  {
    cuts[b] <= cuts[b + 1] <= |ac| && count == Sum(ac[cuts[b]..cuts[b + 1]])
  }

  method Assemble(sorted: seq<real>, av: seq<real>, ac: seq<nat>, cuts: seq<nat>, bb: nat) returns (h: BucketHist)
    requires sorted != [] && av != [] && |av| == |ac| && IsSplit(cuts, bb, |ac|)
    ensures Buckets(sorted, av, ac, cuts, h)
  {
    var boundaries, counts := [av[0]], [];
    for b := 0 to bb
      invariant |boundaries| == b + 1 && |counts| == b && boundaries[0] == av[0]
      invariant forall i | 0 < i <= b :: boundaries[i] == RightEnd(av, sorted, cuts[i])
      invariant forall t | 0 <= t < b :: Counts(ac, cuts, t, counts[t])
    {
      CutsMonotone(cuts, bb, |ac|, b, b + 1);
      CutsMonotone(cuts, bb, |ac|, b + 1, bb);
      var lo, hi := cuts[b], cuts[b + 1];
      counts := counts + [Sum(ac[lo..hi])];
      var right := if hi < |av| then av[hi] else sorted[|sorted| - 1];
      boundaries := boundaries + [right];
    }
    h := BucketHist(boundaries, counts);
  }

  lemma {:induction false} CutsMonotone(cuts: seq<nat>, nb: nat, n: nat, s: nat, t: nat)
    requires IsSplit(cuts, nb, n) && s <= t <= nb
    ensures cuts[s] <= cuts[t]
    decreases t
  {
    if s < t {
      CutsMonotone(cuts, nb, n, s, t - 1);
      assert cuts[t - 1] < cuts[t - 1 + 1];
    }
  }

  lemma {:induction false} BucketsConserve(ac: seq<nat>, cuts: seq<nat>, counts: seq<nat>, b: nat)
    requires |cuts| == |counts| + 1 && b <= |counts| && cuts[0] == 0
    requires forall t | 0 <= t < |counts| :: Counts(ac, cuts, t, counts[t])
    ensures cuts[b] <= |ac| && Sum(counts[..b]) == Sum(ac[..cuts[b]])
  {
    if b > 0 {
      BucketsConserve(ac, cuts, counts, b - 1);
      assert counts[..b] == counts[..b - 1] + [counts[b - 1]];
      SumOfConcat(counts[..b - 1], [counts[b - 1]]);
      assert Sum([counts[b - 1]]) == counts[b - 1];
      assert Counts(ac, cuts, b - 1, counts[b - 1]);
      assert ac[..cuts[b]] == ac[..cuts[b - 1]] + ac[cuts[b - 1]..cuts[b]];
      SumOfConcat(ac[..cuts[b - 1]], ac[cuts[b - 1]..cuts[b]]);
    }
  }

  lemma EndsAscend(sorted: seq<real>, k: nat, i: nat, j: nat)
    requires 0 < k <= |sorted| && Nondecreasing(sorted) && i <= j
    ensures RightEnd(AnchorValues(sorted, k), sorted, i) <= RightEnd(AnchorValues(sorted, k), sorted, j)
  {
    if i < k {
      OffsetsAscend(|sorted|, k, i);
      if j < k {
        OffsetsMonotone(|sorted|, k, i, j);
        OffsetsAscend(|sorted|, k, j);
      }
    }
  }

  /** Counts add up to the input length, and the boundaries ascend from the least to the greatest value. */
  lemma BucketsAreValid(sorted: seq<real>, k: nat, cuts: seq<nat>, bb: nat, h: BucketHist)
    requires 0 < k <= |sorted| && Nondecreasing(sorted) && IsSplit(cuts, bb, k)
    requires Buckets(sorted, AnchorValues(sorted, k), AnchorCounts(|sorted|, k), cuts, h)
    ensures h.Valid() && Sum(h.counts) == |sorted|
    ensures h.boundaries[0] == sorted[0] && h.boundaries[bb] == sorted[|sorted| - 1]
  {
    var av, ac := AnchorValues(sorted, k), AnchorCounts(|sorted|, k);
    assert Offset(|sorted|, k, 0) == 0;
    forall i, j | 0 <= i <= j < |h.boundaries| ensures h.boundaries[i] <= h.boundaries[j] {
      CutsMonotone(cuts, bb, k, i, j);
      EndsAscend(sorted, k, cuts[i], cuts[j]);
    }
    BucketsConserve(ac, cuts, h.counts, bb);
    AnchorsTile(|sorted|, k, k);
    assert h.counts[..bb] == h.counts;
  }

  /** The split has the least error, and of those with the least error it cuts earliest. */
  ghost predicate IsBestSplit(f: seq<nat>, bb: nat, cuts: seq<nat>) {
    && IsSplit(cuts, bb, |f|) && Ascends(cuts, |f|)
    && forall other | IsSplit(other, bb, |f|) && Ascends(other, |f|) ::
         && TotalSSE(f, cuts) <= TotalSSE(f, other)
         && (TotalSSE(f, cuts) == TotalSSE(f, other) ==> other == cuts || CutsEarlier(cuts, other))
  }

  lemma BacktrackIsBest(f: seq<nat>, bb: nat)
    requires 0 < bb <= |f|
    ensures IsBestSplit(f, bb, Backtrack(f, bb, |f|))
  {
    var k, cuts := |f|, Backtrack(f, bb, |f|);
    BacktrackAttains(f, bb, k);
    forall other | IsSplit(other, bb, k) && Ascends(other, k)
      ensures TotalSSE(f, cuts) <= TotalSSE(f, other)
      ensures TotalSSE(f, cuts) == TotalSSE(f, other) ==> other == cuts || CutsEarlier(cuts, other)
    {
      NoSplitIsCheaper(f, bb, k, other);
      if TotalSSE(f, cuts) == TotalSSE(f, other) {
        BacktrackIsEarliest(f, bb, k, other);
      }
    }
  }

  /**
    V-Optimal over at most 500 equi-depth anchors.  No other way of cutting the anchors
    into the same number of non-empty buckets has a smaller squared error.
   */
  method BuildVOptimal(values: seq<real>, buckets: nat)
    returns (h: BucketHist, ghost f: seq<nat>, ghost av: seq<real>, ghost cuts: seq<nat>)
    ensures values == [] || buckets == 0 ==> h == BucketHist([0.0, 0.0], [0])
    ensures values != [] && buckets != 0 ==>
              && EquiDepth(|values|, Min(500, |values|), f) && AnchorsAt(SortedValues(values), f, av)
              && IsBestSplit(f, Min(buckets, |f|), cuts)
              && Buckets(SortedValues(values), av, f, cuts, h)
              && h.Valid() && Sum(h.counts) == |values|
  {
    f, av, cuts := [], [], [];
    if values == [] || buckets == 0 {
      h := EMPTY_HISTOGRAM;
      return;
    }
    var sorted := SortedValues(values);
    SortedValuesAscend(values);
    var n := |sorted|;
    var b := Min(buckets, n);
    var k := Min(VOPT_ANCHORS, n);
    var anchors, ac := Anchors(sorted, k);
    var bb := Min(b, k);
    var dp, bt := FillTable(ac, bb);
    var read := ReadCuts(ac, dp, bt, bb);
    f, av, cuts := ac, anchors, read;
    AnchorsAreEquiDepth(n, k);
    AnchorsStartRuns(sorted, k);
    BacktrackIsBest(ac, bb);
    h := Assemble(sorted, anchors, ac, read, bb);
    BucketsAreValid(sorted, k, cuts, bb, h);
  }
}
