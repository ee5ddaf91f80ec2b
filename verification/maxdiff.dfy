/** MaxDiff histograms (`build_maxdiff`), over the reals. */
module MaxDiff {
  import opened Machine
  import opened Sorting
  import opened Histogram

  function Abs(x: real): real {
    if x < 0.0 then -x else x
  }

  /** Close enough to the value before to be counted with it. */
  predicate Merges(v: real, last: real) {
    Abs(v - last) < EPSILON * MaxReal(Abs(last), 1.0)
  }

  /** What that means for a value not below the last: nearer than the spacing of doubles there. */
  lemma MergesWithin(v: real, last: real)
    requires last <= v
    ensures Merges(v, last) <==>
            v - last < EPSILON || v - last < EPSILON * last || v - last < EPSILON * -last
  {
    ScaledEpsilon(last);
  }

  lemma ScaledEpsilon(x: real)
    ensures x <= 1.0 ==> EPSILON * x <= EPSILON
    ensures x >= 1.0 ==> EPSILON * x >= EPSILON
    ensures EPSILON * -x == -(EPSILON * x)
    ensures x >= 0.0 ==> EPSILON * x >= 0.0
  {
  }

  ghost predicate Rising(vals: seq<real>) {
    forall i, j | 0 <= i < j < |vals| :: vals[i] < vals[j]
  }

  /**
    Entry b of the reduction stands for a run of the sorted input: its first value, and
    every later one close enough to it; the next entry is not.
   */
  ghost predicate RunAt(sorted: seq<real>, vals: seq<real>, freqs: seq<nat>, b: nat)
    requires |vals| == |freqs| && b < |vals|
  {
    var start, end := Sum(freqs[..b]), Sum(freqs[..b + 1]);
    && start < end <= |sorted| && sorted[start] == vals[b]
    && (forall x | start < x < end :: Merges(sorted[x], vals[b]))
    && (b + 1 < |vals| ==> !Merges(vals[b + 1], vals[b]))
  }

  ghost predicate Reduced(sorted: seq<real>, vals: seq<real>, freqs: seq<nat>) {
    && |vals| == |freqs| && Rising(vals) && Sum(freqs) == |sorted|
    && (forall b | 0 <= b < |vals| :: RunAt(sorted, vals, freqs, b))
    && (sorted == [] ==> vals == [])
    && (sorted != [] ==> vals != [] && vals[0] == sorted[0] && vals[|vals| - 1] <= sorted[|sorted| - 1])
  }

  lemma SumOfLast(s: seq<nat>, x: nat)
    ensures Sum(s + [x]) == Sum(s) + x
  {
    SumOfConcat(s, [x]);
    assert Sum([x]) == x;
  }

  function Bumped(freqs: seq<nat>): seq<nat>
    requires freqs != []
  {
    freqs[..|freqs| - 1] + [freqs[|freqs| - 1] + 1]
  }

  lemma BumpedTotal(freqs: seq<nat>)
    requires freqs != []
    ensures Sum(Bumped(freqs)) == Sum(freqs) + 1
  {
    var before, last := freqs[..|freqs| - 1], freqs[|freqs| - 1];
    SumOfLast(before, last);
    SumOfLast(before, last + 1);
    assert freqs == before + [last];
  }

  lemma BumpedPrefix(freqs: seq<nat>, b: nat)
    requires freqs != [] && b < |freqs|
    ensures Bumped(freqs)[..b] == freqs[..b]
  {
  }

  lemma GrownRun(sorted: seq<real>, v: real, vals: seq<real>, freqs: seq<nat>, b: nat)
    requires |vals| == |freqs| && b < |vals| && Sum(freqs) == |sorted| && RunAt(sorted, vals, freqs, b)
    requires Merges(v, vals[|vals| - 1])
    ensures RunAt(sorted + [v], vals, Bumped(freqs), b)
  {
    var n := |freqs| - 1;
    BumpedTotal(freqs);
    BumpedPrefix(freqs, b);
    if b < n {
      BumpedPrefix(freqs, b + 1);
    } else {
      assert Bumped(freqs)[..n + 1] == Bumped(freqs) && freqs[..n + 1] == freqs;
    }
  }

  lemma GrowLastRun(sorted: seq<real>, v: real, vals: seq<real>, freqs: seq<nat>)
    requires Reduced(sorted, vals, freqs) && vals != [] && Nondecreasing(sorted + [v])
    requires Merges(v, vals[|vals| - 1])
    ensures Reduced(sorted + [v], vals, Bumped(freqs))
  {
    BumpedTotal(freqs);
    forall b | 0 <= b < |vals| ensures RunAt(sorted + [v], vals, Bumped(freqs), b) {
      GrownRun(sorted, v, vals, freqs, b);
    }
    assert (sorted + [v])[|sorted| - 1] <= (sorted + [v])[|sorted|];
  }

  lemma StartRun(sorted: seq<real>, v: real, vals: seq<real>, freqs: seq<nat>)
    requires Reduced(sorted, vals, freqs) && Nondecreasing(sorted + [v])
    requires vals != [] ==> !Merges(v, vals[|vals| - 1])
    ensures Reduced(sorted + [v], vals + [v], freqs + [1])
  {
    var vals', freqs', n := vals + [v], freqs + [1], |vals|;
    SumOfLast(freqs, 1);
    forall b | 0 <= b <= n ensures RunAt(sorted + [v], vals', freqs', b) {
      assert freqs'[..b] == freqs[..b];
      if b < n {
        assert RunAt(sorted, vals, freqs, b);
        assert freqs'[..b + 1] == freqs[..b + 1];
      } else {
        assert freqs'[..b + 1] == freqs' && freqs[..b] == freqs;
      }
    }
    if vals != [] {
      assert vals[n - 1] <= (sorted + [v])[|sorted| - 1] <= (sorted + [v])[|sorted|];
      assert vals[n - 1] != v;
    }
  }

  /** Distinct values of the sorted input, each with its number of occurrences. */
  method Reduce(sorted: seq<real>) returns (vals: seq<real>, freqs: seq<nat>)
    requires Nondecreasing(sorted)
    ensures Reduced(sorted, vals, freqs)
  {
    vals, freqs := [], [];
    for i := 0 to |sorted|
      invariant Reduced(sorted[..i], vals, freqs)
    {
      var v := sorted[i];
      assert sorted[..i + 1] == sorted[..i] + [v];
      if vals != [] {
        var last := vals[|vals| - 1];
        if Merges(v, last) {
          GrowLastRun(sorted[..i], v, vals, freqs);
          freqs := Bumped(freqs);
          continue;
        }
      }
      StartRun(sorted[..i], v, vals, freqs);
      vals, freqs := vals + [v], freqs + [1];
    }
    assert sorted[..|sorted|] == sorted;
  }

  /** Area of the gap above value i: frequency difference times distance. */
  function Score(vals: seq<real>, freqs: seq<nat>, i: nat): real
    requires i + 1 < |vals| == |freqs|
  {
    Abs(freqs[i + 1] as real - freqs[i] as real) * (vals[i + 1] - vals[i])
  }

  function NegatedScores(vals: seq<real>, freqs: seq<nat>): seq<real>
    requires 0 < |vals| == |freqs|
  {
    seq(|vals| - 1, i requires 0 <= i < |vals| - 1 => -Score(vals, freqs, i))
  }

  ghost predicate AscendingNats(s: seq<nat>) {
    forall i, j | 0 <= i < j < |s| :: s[i] < s[j]
  }

  function InsertNat(s: seq<nat>, v: nat): (r: seq<nat>)
    requires AscendingNats(s) && v !in s
    ensures AscendingNats(r) && |r| == |s| + 1
    ensures forall x :: x in r <==> x in s || x == v
  {
    if s == [] then [v]
    else
      var last, rest := s[|s| - 1], s[..|s| - 1];
      assert s == rest + [last];
      if last < v then s + [v]
      else
        var inner := InsertNat(rest, v);
        assert forall i | 0 <= i < |inner| :: inner[i] in inner;
        inner + [last]
  }

  function SortNats(s: seq<nat>): (r: seq<nat>)
    requires forall i, j | 0 <= i < j < |s| :: s[i] != s[j]
    ensures AscendingNats(r) && |r| == |s|
    ensures forall x :: x in r <==> x in s
  {
    if s == [] then []
    else
      assert s == s[..|s| - 1] + [s[|s| - 1]];
      InsertNat(SortNats(s[..|s| - 1]), s[|s| - 1])
  }

  /** The area of a gap: how much the frequency rises or falls across it, times how wide it is. */
  ghost predicate IsArea(vals: seq<real>, freqs: seq<nat>, i: nat, area: real)
    requires i + 1 < |vals| == |freqs|
  {
    var here: int, above: int := freqs[i], freqs[i + 1];
    area == (Max(here, above) - Min(here, above)) as real * (vals[i + 1] - vals[i])
  }

  lemma ScoreIsArea(vals: seq<real>, freqs: seq<nat>, i: nat)
    requires i + 1 < |vals| == |freqs|
    ensures IsArea(vals, freqs, i, Score(vals, freqs, i))
  {
    var here: int, above: int := freqs[i], freqs[i + 1];
    assert Abs(above as real - here as real) == (Max(here, above) - Min(here, above)) as real;
  }

  /** Gap c is cut rather than gap x: its area is larger, or the same and it comes first. */
  ghost predicate Preferred(vals: seq<real>, freqs: seq<nat>, c: nat, x: nat)
    requires c + 1 < |vals| == |freqs| && x + 1 < |vals|
  {
    forall areaC, areaX | IsArea(vals, freqs, c, areaC) && IsArea(vals, freqs, x, areaX) ::
      areaX < areaC || (areaX == areaC && c < x)
  }

  /** The count best gaps to cut at, ascending: each is preferred to every gap left out. */
  ghost predicate AreBestCuts(vals: seq<real>, freqs: seq<nat>, cuts: seq<nat>, count: nat)
    requires |vals| == |freqs|
  {
    && |cuts| == count && AscendingNats(cuts)
    && (forall c | c in cuts :: c + 1 < |vals|)
    && (forall c, x: nat | c in cuts && x !in cuts && x + 1 < |vals| :: Preferred(vals, freqs, c, x))
  }

  lemma TakenAreBest(vals: seq<real>, freqs: seq<nat>, order: seq<nat>, count: nat, c: nat, x: nat)
    requires 0 < |vals| == |freqs| && count <= |vals| - 1
    requires IsOrder(NegatedScores(vals, freqs), order, |vals| - 1)
    requires c in order[..count] && x !in order[..count] && x + 1 < |vals|
    ensures c + 1 < |vals| && Preferred(vals, freqs, c, x)
  {
    forall t | 0 <= t < count ensures order[t] in order[..count] {
      assert order[..count][t] == order[t];
    }
    var i :| 0 <= i < count && order[..count][i] == c;
    assert x in order;
    var j :| 0 <= j < |order| && order[j] == x;
    assert Before(NegatedScores(vals, freqs), order[i], order[j]);
    ScoreIsArea(vals, freqs, c);
    ScoreIsArea(vals, freqs, x);
  }

  method BestCuts(vals: seq<real>, freqs: seq<nat>, count: nat) returns (cuts: seq<nat>)
    requires |vals| == |freqs| && count < |vals|
    ensures AreBestCuts(vals, freqs, cuts, count)
  {
    var keys := NegatedScores(vals, freqs);
    var order := StableOrder(keys);
    OrderIsStable(keys, |keys|);
    var taken := order[..count];
    assert forall i, j | 0 <= i < j < |order| :: Before(keys, order[i], order[j]);
    cuts := SortNats(taken);
    forall c | c in cuts ensures c + 1 < |vals| {
      assert c in taken && c in order;
    }
    forall c, x: nat | c in cuts && x !in cuts && x + 1 < |vals| ensures Preferred(vals, freqs, c, x) {
      TakenAreBest(vals, freqs, order, count, c, x);
    }
  }

  /** Where bucket b ends: after cut b, and at the last value for the final bucket. */
  function EndOf(cuts: seq<nat>, d: nat, b: nat): int {
    if b < |cuts| then cuts[b] else d - 1
  }

  function StartOf(cuts: seq<nat>, b: nat): nat {
    if 0 < b <= |cuts| then cuts[b - 1] + 1 else 0
  }

  ghost predicate CutAt(vals: seq<real>, freqs: seq<nat>, cuts: seq<nat>, h: BucketHist) {
    && 0 < |vals| == |freqs|
    && |h.counts| == |cuts| + 1 && |h.boundaries| == |cuts| + 2
    && h.boundaries[0] == vals[0]
    && forall b | 0 <= b <= |cuts| :: BucketAt(vals, freqs, cuts, b, h.boundaries[b + 1], h.counts[b])
  }

  ghost predicate BucketAt(vals: seq<real>, freqs: seq<nat>, cuts: seq<nat>, b: nat, right: real, count: nat)
    requires |vals| == |freqs|
  {
    var start, end := StartOf(cuts, b), EndOf(cuts, |vals|, b);
    start <= end < |vals| && right == vals[end] && count == Sum(freqs[start..end + 1])
  }

  method CutBuckets(vals: seq<real>, freqs: seq<nat>, cuts: seq<nat>) returns (h: BucketHist)
    requires 0 < |vals| == |freqs| && AscendingNats(cuts) && forall c | c in cuts :: c + 1 < |vals|
    ensures CutAt(vals, freqs, cuts, h)
  {
    var d := |vals|;
    var boundaries, counts, start := [vals[0]], [], 0;
    for b := 0 to |cuts|
      invariant |counts| == b && |boundaries| == b + 1 && boundaries[0] == vals[0]
      invariant start == StartOf(cuts, b)
      invariant forall t | 0 <= t < b :: BucketAt(vals, freqs, cuts, t, boundaries[t + 1], counts[t])
    {
      var end := cuts[b];
      assert cuts[b] in cuts;
      counts := counts + [Sum(freqs[start..end + 1])];
      boundaries := boundaries + [vals[end]];
      start := end + 1;
      assert BucketAt(vals, freqs, cuts, b, boundaries[b + 1], counts[b]);
    }
    assert |cuts| > 0 ==> cuts[|cuts| - 1] in cuts;
    counts := counts + [Sum(freqs[start..d])];
    boundaries := boundaries + [vals[d - 1]];
    assert BucketAt(vals, freqs, cuts, |cuts|, boundaries[|cuts| + 1], counts[|cuts|]);
    h := BucketHist(boundaries, counts);
  }

  lemma {:induction false} CutsConserve(vals: seq<real>, freqs: seq<nat>, cuts: seq<nat>, h: BucketHist, b: nat)
    requires CutAt(vals, freqs, cuts, h) && b <= |cuts| + 1
    requires forall t | 0 < t <= |cuts| :: StartOf(cuts, t) == EndOf(cuts, |vals|, t - 1) + 1
    ensures var end := if b == 0 then 0 else EndOf(cuts, |vals|, b - 1) + 1;
            0 <= end <= |freqs| && Sum(h.counts[..b]) == Sum(freqs[..end])
  {
    if b > 0 {
      CutsConserve(vals, freqs, cuts, h, b - 1);
      assert BucketAt(vals, freqs, cuts, b - 1, h.boundaries[b - 1 + 1], h.counts[b - 1]);
      var start, end := StartOf(cuts, b - 1), EndOf(cuts, |vals|, b - 1);
      assert h.counts[..b] == h.counts[..b - 1] + [h.counts[b - 1]];
      SumOfLast(h.counts[..b - 1], h.counts[b - 1]);
      assert freqs[..end + 1] == freqs[..start] + freqs[start..end + 1];
      SumOfConcat(freqs[..start], freqs[start..end + 1]);
    }
  }

  /** Nothing is lost or counted twice, and boundaries ascend. */
  lemma CutsAreValid(vals: seq<real>, freqs: seq<nat>, cuts: seq<nat>, h: BucketHist)
    requires CutAt(vals, freqs, cuts, h) && Rising(vals) && AscendingNats(cuts)
    ensures h.Valid() && Sum(h.counts) == Sum(freqs)
  {
    CutsConserve(vals, freqs, cuts, h, |cuts| + 1);
    assert h.counts[..|cuts| + 1] == h.counts && freqs[..|vals|] == freqs;
    forall i, j | 0 <= i <= j < |h.boundaries| ensures h.boundaries[i] <= h.boundaries[j] {
      if j > 0 {
        assert BucketAt(vals, freqs, cuts, j - 1, h.boundaries[j - 1 + 1], h.counts[j - 1]);
        if i > 0 {
          assert BucketAt(vals, freqs, cuts, i - 1, h.boundaries[i - 1 + 1], h.counts[i - 1]);
          assert EndOf(cuts, |vals|, i - 1) <= EndOf(cuts, |vals|, j - 1);
        }
      }
    }
  }

  /** One bucket per value, when there are no more values than buckets. */
  lemma SingletonsAreValid(vals: seq<real>, freqs: seq<nat>)
    requires 0 < |vals| == |freqs| && Rising(vals)
    ensures BucketHist([vals[0]] + vals, freqs).Valid()
  {
  }

  /**
    MaxDiff(V,A): cuts at the buckets - 1 gaps of largest area.  Counts always add up to
    the input length and boundaries never descend.
   */
  method BuildMaxDiff(values: seq<real>, buckets: nat)
    returns (h: BucketHist, ghost vals: seq<real>, ghost freqs: seq<nat>, ghost cuts: seq<nat>)
    ensures values == [] || buckets == 0 ==> h == BucketHist([0.0, 0.0], [0])
    ensures values != [] && buckets != 0 ==>
              && Reduced(SortedValues(values), vals, freqs)
              && (if |vals| <= buckets then h == BucketHist([vals[0]] + vals, freqs)
                  else AreBestCuts(vals, freqs, cuts, buckets - 1) && CutAt(vals, freqs, cuts, h))
              && h.Valid() && Sum(h.counts) == |values|
  {
    vals, freqs, cuts := [], [], [];
    if values == [] || buckets == 0 {
      return EMPTY_HISTOGRAM, vals, freqs, cuts;
    }
    SortedValuesAscend(values);
    var sorted := SortedValues(values);
    var v, f := Reduce(sorted);
    vals, freqs := v, f;
    var d := |v|;
    if d <= buckets {
      SingletonsAreValid(v, f);
      return BucketHist([v[0]] + v, f), vals, freqs, cuts;
    }
    var c := BestCuts(v, f, buckets - 1);
    cuts := c;
    h := CutBuckets(v, f, c);
    CutsAreValid(v, f, c, h);
  }
}
