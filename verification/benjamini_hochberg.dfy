/** Benjamini-Hochberg false-discovery-rate control (`benjamini_hochberg.py`), over the reals. */
module BenjaminiHochberg {
  import opened Machine
  import opened Counting
  import opened Sorting

  datatype Outcome = Tested(rejected: seq<bool>, adjusted: seq<real>) | OutOfRange(p: real)

  ghost predicate InUnit(pvals: seq<real>) {
    forall i | 0 <= i < |pvals| :: 0.0 <= pvals[i] <= 1.0
  }

  /** p-values in stable ascending order; rank k is position k - 1. */
  function AtRank(pvals: seq<real>, order: seq<nat>, k: nat): real
    requires 0 < k <= |order| && order[k - 1] < |pvals|
  {
    pvals[order[k - 1]]
  }

  /** The step-up threshold k / m * alpha. */
  function Threshold(m: nat, k: nat, alpha: real): real
    requires m > 0
  {
    k as real / m as real * alpha
  }

  /** m * p / k. */
  function Inflated(m: nat, p: real, k: nat): real
    requires k > 0
  {
    m as real * p / k as real
  }

  ghost predicate Ranked(pvals: seq<real>, order: seq<nat>) {
    IsOrder(pvals, order, |pvals|)
  }

  ghost predicate Passes(pvals: seq<real>, order: seq<nat>, alpha: real, k: nat)
    requires Ranked(pvals, order) && 0 < k <= |pvals|
  {
    AtRank(pvals, order, k) <= Threshold(|pvals|, k, alpha)
  }

  /** Some rank from k on passes its threshold. */
  ghost predicate PassesFrom(pvals: seq<real>, order: seq<nat>, alpha: real, k: nat)
    requires Ranked(pvals, order)
  {
    exists j :: 0 < j && k <= j <= |pvals| && Passes(pvals, order, alpha, j)
  }

  /** The running minimum from the right. */
  ghost function Running(pvals: seq<real>, order: seq<nat>, k: nat): real
    requires Ranked(pvals, order) && 0 < k <= |pvals| + 1
    decreases |pvals| + 1 - k
  {
    if k == |pvals| + 1 then 1.0
    else
      var q := MinReal(1.0, Inflated(|pvals|, AtRank(pvals, order, k), k));
      var running := Running(pvals, order, k + 1);
      if q < running then q else running
  }

  // Duality of the two loops.

  lemma InflatedIffThreshold(m: nat, p: real, k: nat, alpha: real)
    requires m > 0 && k > 0
    ensures Inflated(m, p, k) <= alpha <==> p <= Threshold(m, k, alpha)
  {
  }

  lemma CancelFactor(x: real, a: real, b: real)
    requires x > 0.0 && x * a <= x * b
    ensures a <= b
  {
  }

  /** The adjusted value at a rank is at most alpha exactly when some rank from there on passes. */
  lemma {:induction false} RunningIffPasses(pvals: seq<real>, order: seq<nat>, alpha: real, k: nat)
    requires Ranked(pvals, order) && InUnit(pvals) && 0 < k <= |pvals|
    ensures Running(pvals, order, k) <= alpha <==> PassesFrom(pvals, order, alpha, k)
    decreases |pvals| - k
  {
    var m, p := |pvals|, AtRank(pvals, order, k);
    InflatedIffThreshold(m, p, k, alpha);
    assert Passes(pvals, order, alpha, k) <==> Inflated(m, p, k) <= alpha;
    if k < m {
      RunningIffPasses(pvals, order, alpha, k + 1);
      if PassesFrom(pvals, order, alpha, k + 1) {
        var j :| 0 < j && k + 1 <= j <= m && Passes(pvals, order, alpha, j);
        assert PassesFrom(pvals, order, alpha, k);
      }
      if alpha >= 1.0 {
        LastPasses(pvals, order, alpha);
        assert PassesFrom(pvals, order, alpha, k);
        RunningWithinUnit(pvals, order, k);
      }
    } else {
      assert Running(pvals, order, m + 1) == 1.0;
      if alpha >= 1.0 {
        LastPasses(pvals, order, alpha);
      }
    }
  }

  lemma LastPasses(pvals: seq<real>, order: seq<nat>, alpha: real)
    requires Ranked(pvals, order) && InUnit(pvals) && pvals != [] && alpha >= 1.0
    ensures Passes(pvals, order, alpha, |pvals|)
  {
  }

  lemma {:induction false} RunningWithinUnit(pvals: seq<real>, order: seq<nat>, k: nat)
    requires Ranked(pvals, order) && 0 < k <= |pvals| + 1
    ensures Running(pvals, order, k) <= 1.0
    decreases |pvals| + 1 - k
  {
    if k <= |pvals| {
      RunningWithinUnit(pvals, order, k + 1);
    }
  }

  // The adjusted value without ranks.

  /** How many p-values are at most t. */
  ghost function CountAtMost(pvals: seq<real>, t: real): nat {
    |set i | i in Below(|pvals|) && pvals[i] <= t|
  }

  /** m * p / #{p-values <= p}, for the p-value at position l. */
  ghost function Quotient(pvals: seq<real>, l: nat): real
    requires l < |pvals|
  {
    if CountAtMost(pvals, pvals[l]) == 0 then 1.0
    else Inflated(|pvals|, pvals[l], CountAtMost(pvals, pvals[l]))
  }

  /**
    `a` is the least of 1 and the quotients of the p-values at least as large as the i-th.
    Ranks, ties and the order of the input play no part.
   */
  ghost predicate IsAdjusted(pvals: seq<real>, i: nat, a: real)
    requires i < |pvals|
  {
    && a <= 1.0
    && (forall l | 0 <= l < |pvals| && pvals[l] >= pvals[i] :: a <= Quotient(pvals, l))
    && (a == 1.0 || exists l :: 0 <= l < |pvals| && pvals[l] >= pvals[i] && a == Quotient(pvals, l))
  }

  /** The p-value itself is counted, so the quotient is always m times it over the count. */
  lemma QuotientWrittenOut(pvals: seq<real>, l: nat)
    requires l < |pvals|
    ensures CountAtMost(pvals, pvals[l]) >= 1
    ensures Quotient(pvals, l) == |pvals| as real * pvals[l] / CountAtMost(pvals, pvals[l]) as real
  {
    var low := set i | i in Below(|pvals|) && pvals[i] <= pvals[l];
    assert l in low;
    SubsetCount({l}, low);
  }

  lemma RanksAscend(pvals: seq<real>, order: seq<nat>, j: nat, k: nat)
    requires Ranked(pvals, order) && 0 < j <= k <= |pvals|
    ensures AtRank(pvals, order, j) <= AtRank(pvals, order, k)
  {
  }

  /** At least k p-values are at most the one of rank k; exactly k if the next one is larger. */
  lemma RankCounts(pvals: seq<real>, order: seq<nat>, k: nat)
    requires Ranked(pvals, order) && 0 < k <= |pvals|
    ensures CountAtMost(pvals, AtRank(pvals, order, k)) >= k
    ensures k == |pvals| || AtRank(pvals, order, k + 1) > AtRank(pvals, order, k) ==>
              CountAtMost(pvals, AtRank(pvals, order, k)) == k
  {
    var p := AtRank(pvals, order, k);
    var low := set i | i in Below(|pvals|) && pvals[i] <= p;
    var listed := ListedSet(order[..k]);
    assert forall i, j | 0 <= i < j < |order| :: Before(pvals, order[i], order[j]);
    ListedCount(order[..k]);
    forall i | i in listed ensures i in low {
      var j :| 0 <= j < k && order[..k][j] == i;
      RanksAscend(pvals, order, j + 1, k);
    }
    SubsetCount(listed, low);
    if k == |pvals| || AtRank(pvals, order, k + 1) > p {
      forall j | k <= j < |order| ensures pvals[order[j]] > p {
        RanksAscend(pvals, order, k + 1, j + 1);
      }
      forall i | i in low ensures i in listed {
        assert i in order;
        var j :| 0 <= j < |order| && order[j] == i;
        assert order[..k][j] == i;
      }
      assert low == listed;
    }
  }

  ghost function ListedSet(s: seq<nat>): set<nat> {
    set x | x in s
  }

  lemma ListedCount(s: seq<nat>)
    requires forall i, j | 0 <= i < j < |s| :: s[i] != s[j]
    ensures |ListedSet(s)| == |s|
  {
    DistinctCount(s);
  }

  lemma InflatedFalls(m: nat, p: real, j: nat, k: nat)
    requires 0 < j <= k && p >= 0.0
    ensures Inflated(m, p, k) <= Inflated(m, p, j)
  {
    assert m as real * p >= 0.0;
    LargerDivisor(m as real * p, j as real, k as real);
  }

  lemma LargerDivisor(a: real, x: real, y: real)
    requires a >= 0.0 && 0.0 < x <= y
    ensures a / y <= a / x
  {
    var q := a / y;
    assert q * y == a && a / x * x == a;
    assert q >= 0.0;
    assert x * q <= y * q;
    CancelFactor(x, q, a / x);
  }

  /** The last rank holding the same value as rank k. */
  lemma {:induction false} LastTied(pvals: seq<real>, order: seq<nat>, k: nat) returns (last: nat)
    requires Ranked(pvals, order) && 0 < k <= |pvals|
    ensures k <= last <= |pvals| && AtRank(pvals, order, last) == AtRank(pvals, order, k)
    ensures CountAtMost(pvals, AtRank(pvals, order, k)) == last
    decreases |pvals| - k
  {
    RankCounts(pvals, order, k);
    if k < |pvals| && AtRank(pvals, order, k + 1) <= AtRank(pvals, order, k) {
      RanksAscend(pvals, order, k, k + 1);
      last := LastTied(pvals, order, k + 1);
    } else {
      last := k;
    }
  }

  /** The running minimum is at most the value computed at each later rank, and is one of them or 1. */
  lemma {:induction false} RunningAtMost(pvals: seq<real>, order: seq<nat>, k: nat, j: nat)
    requires Ranked(pvals, order) && 0 < k <= j <= |pvals|
    ensures Running(pvals, order, k) <= Inflated(|pvals|, AtRank(pvals, order, j), j)
    decreases j - k
  {
    if k < j {
      RunningAtMost(pvals, order, k + 1, j);
    }
  }

  lemma {:induction false} RunningAttained(pvals: seq<real>, order: seq<nat>, k: nat)
    requires Ranked(pvals, order) && 0 < k <= |pvals| + 1
    ensures Running(pvals, order, k) == 1.0 ||
            exists j :: 0 < j && k <= j <= |pvals| &&
                        Running(pvals, order, k) == Inflated(|pvals|, AtRank(pvals, order, j), j)
    decreases |pvals| + 1 - k
  {
    if k <= |pvals| {
      RunningAttained(pvals, order, k + 1);
    }
  }

  lemma RankOf(pvals: seq<real>, order: seq<nat>, l: nat) returns (j: nat)
    requires Ranked(pvals, order) && l < |pvals|
    ensures 0 < j <= |pvals| && order[j - 1] == l
  {
    assert l in order;
    var i :| 0 <= i < |order| && order[i] == l;
    j := i + 1;
  }

  /** The loop's running minimum is the rank-free adjusted value. */
  lemma RunningIsAdjusted(pvals: seq<real>, order: seq<nat>, k: nat)
    requires Ranked(pvals, order) && InUnit(pvals) && 0 < k <= |pvals|
    ensures IsAdjusted(pvals, order[k - 1], Running(pvals, order, k))
  {
    var i, a, m := order[k - 1], Running(pvals, order, k), |pvals|;
    RunningWithinUnit(pvals, order, k);
    forall l | 0 <= l < m && pvals[l] >= pvals[i] ensures a <= Quotient(pvals, l) {
      var j := RankOf(pvals, order, l);
      var last := LastTied(pvals, order, j);
      if last < k {
        RanksAscend(pvals, order, last, k);
        var lastOfK := LastTied(pvals, order, k);
      }
      RunningAtMost(pvals, order, k, last);
    }
    RunningAttained(pvals, order, k);
    if a != 1.0 {
      var j :| 0 < j && k <= j <= m && a == Inflated(m, AtRank(pvals, order, j), j);
      var last := LastTied(pvals, order, j);
      InflatedFalls(m, AtRank(pvals, order, j), j, last);
      RunningAtMost(pvals, order, k, last);
      RanksAscend(pvals, order, k, j);
      assert a == Quotient(pvals, order[j - 1]);
    }
  }

  /** Adjusted values grow with the p-value, so equal p-values get equal ones. */
  lemma AdjustedMonotone(pvals: seq<real>, i: nat, j: nat, a: real, b: real)
    requires i < |pvals| && j < |pvals| && pvals[i] <= pvals[j]
    requires IsAdjusted(pvals, i, a) && IsAdjusted(pvals, j, b)
    ensures a <= b
    ensures pvals[i] == pvals[j] ==> a == b
  {
  }

  // The loops.

  method LargestPassing(pvals: seq<real>, order: seq<nat>, alpha: real) returns (maxK: int)
    requires Ranked(pvals, order)
    ensures maxK == -1 || (0 < maxK <= |pvals| && Passes(pvals, order, alpha, maxK))
    ensures forall k | 0 < k <= |pvals| && Passes(pvals, order, alpha, k) :: k <= maxK
  {
    maxK := -1;
    for rank := 1 to |pvals| + 1
      invariant maxK == -1 || (0 < maxK < rank && Passes(pvals, order, alpha, maxK))
      invariant forall k | 0 < k < rank && Passes(pvals, order, alpha, k) :: k <= maxK
    {
      if AtRank(pvals, order, rank) <= Threshold(|pvals|, rank, alpha) {
        maxK := rank;
      }
    }
  }

  method RejectUpTo(pvals: seq<real>, order: seq<nat>, maxK: int) returns (rejected: seq<bool>)
    requires Ranked(pvals, order)
    ensures |rejected| == |pvals|
    ensures forall i | 0 <= i < |pvals| :: rejected[order[i]] <==> i + 1 <= maxK
  {
    var flags := new bool[|pvals|](_ => false);
    assert forall i, j | 0 <= i < j < |order| :: Before(pvals, order[i], order[j]);
    if maxK >= 0 {
      for r := 0 to |pvals|
        invariant forall i | 0 <= i < r :: flags[order[i]] <==> i + 1 <= maxK
        invariant forall i | r <= i < |pvals| :: !flags[order[i]]
      {
        if r + 1 <= maxK {
          flags[order[r]] := true;
        }
      }
    }
    rejected := flags[..];
  }

  method RunningMinima(pvals: seq<real>, order: seq<nat>) returns (adjSorted: array<real>)
    requires Ranked(pvals, order)
    ensures adjSorted.Length == |pvals|
    ensures forall k | 0 <= k < |pvals| :: adjSorted[k] == Running(pvals, order, k + 1)
  {
    var m := |pvals|;
    adjSorted := new real[m](_ => 0.0);
    var running := 1.0;
    for r := m downto 0
      invariant running == Running(pvals, order, r + 1)
      invariant forall k | r <= k < m :: adjSorted[k] == Running(pvals, order, k + 1)
    {
      var q := MinReal(1.0, Inflated(m, AtRank(pvals, order, r + 1), r + 1));
      if q < running {
        running := q;
      }
      adjSorted[r] := running;
    }
  }

  method Scatter(pvals: seq<real>, order: seq<nat>, adjSorted: array<real>) returns (adjusted: seq<real>)
    requires Ranked(pvals, order) && adjSorted.Length == |pvals|
    ensures |adjusted| == |pvals|
    ensures forall k | 0 <= k < |pvals| :: adjusted[order[k]] == adjSorted[k]
  {
    var result := new real[|pvals|](_ => 0.0);
    assert forall i, j | 0 <= i < j < |order| :: Before(pvals, order[i], order[j]);
    for r := 0 to |pvals|
      invariant forall k | 0 <= k < r :: result[order[k]] == adjSorted[k]
    {
      result[order[r]] := adjSorted[r];
    }
    adjusted := result[..];
  }

  /** The first p-value outside the unit interval. */
  ghost predicate IsFirstOutside(pvals: seq<real>, p: real) {
    exists i: nat :: i < |pvals| && pvals[i] == p && !(0.0 <= p <= 1.0) && InUnit(pvals[..i])
  }

  method FirstOutOfRange(pvals: seq<real>) returns (bad: Option<real>)
    ensures bad.None? <==> InUnit(pvals)
    ensures bad.Some? ==> IsFirstOutside(pvals, bad.value)
  {
    for i := 0 to |pvals|
      invariant forall k | 0 <= k < i :: 0.0 <= pvals[k] <= 1.0
    {
      if !(0.0 <= pvals[i] <= 1.0) {
        assert pvals[..i + 1][..i] == pvals[..i];
        return Some(pvals[i]);
      }
    }
    bad := None;
  }

  /**
    Rejections and adjusted p-values, in input order.  A hypothesis is rejected exactly
    when its adjusted p-value is at most alpha, whatever alpha is.
   */
  method Adjust(pvals: seq<real>, alpha: real) returns (result: Outcome)
    ensures result.OutOfRange? <==> !InUnit(pvals)
    ensures result.OutOfRange? ==> IsFirstOutside(pvals, result.p)
    ensures result.Tested? ==>
              && |result.rejected| == |result.adjusted| == |pvals|
              && forall i | 0 <= i < |pvals| ::
                   && IsAdjusted(pvals, i, result.adjusted[i])
                   && (result.rejected[i] <==> result.adjusted[i] <= alpha)
    ensures result.Tested? ==>
              forall i, j | 0 <= i < |pvals| && 0 <= j < |pvals| && pvals[i] <= pvals[j] ::
                result.rejected[j] ==> result.rejected[i]
  {
    if pvals == [] {
      return Tested([], []);
    }
    var bad := FirstOutOfRange(pvals);
    if bad.Some? {
      return OutOfRange(bad.value);
    }
    var order := StableOrder(pvals);
    OrderIsStable(pvals, |pvals|);
    var maxK := LargestPassing(pvals, order, alpha);
    var rejected := RejectUpTo(pvals, order, maxK);
    var adjSorted := RunningMinima(pvals, order);
    var adjusted := Scatter(pvals, order, adjSorted);
    forall i | 0 <= i < |pvals| ensures IsAdjusted(pvals, i, adjusted[i]) && (rejected[i] <==> adjusted[i] <= alpha) {
      var k := RankOf(pvals, order, i);
      RunningIsAdjusted(pvals, order, k);
      RunningIffPasses(pvals, order, alpha, k);
      assert adjusted[order[k - 1]] == adjSorted[k - 1];
    }
    forall i, j | 0 <= i < |pvals| && 0 <= j < |pvals| && pvals[i] <= pvals[j] ensures rejected[j] ==> rejected[i] {
      AdjustedMonotone(pvals, i, j, adjusted[i], adjusted[j]);
    }
    result := Tested(rejected, adjusted);
  }
}
