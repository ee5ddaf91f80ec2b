/** Bucket histograms and their range estimate (`BucketHist`), over the reals. */
module Histogram {
  import opened Machine
  import opened Sorting

  /** counts[i] values lie in the bucket from boundaries[i] to boundaries[i + 1]. */
  datatype BucketHist = BucketHist(boundaries: seq<real>, counts: seq<nat>) {
    ghost predicate Valid() {
      |boundaries| == |counts| + 1 && Nondecreasing(boundaries)
    }
  }

  /** The result for an empty input or no buckets. */
  const EMPTY_HISTOGRAM: BucketHist := BucketHist([0.0, 0.0], [0])

  /** The spacing of doubles at 1. */
  const EPSILON: real := 1.0 / 4503599627370496.0

  lemma EpsilonIsSpacing()
    ensures EPSILON * Pow2(52) as real == 1.0
  {
    assert Pow2(13) == 8192;
    PowersMultiply(13, 13);
    PowersMultiply(26, 26);
  }

  /** What one bucket adds: nothing, all of its count, or the overlapping fraction of it. */
  function Share(bl: real, bh: real, c: real, lo: real, hi: real): real {
    if bh < lo || bl > hi then 0.0
    else if bl >= lo && bh <= hi then c
    else c * (MaxReal(MinReal(bh, hi) - MaxReal(bl, lo), 0.0) / MaxReal(bh - bl, EPSILON))
  }

  function Mass(h: BucketHist, lo: real, hi: real, k: nat): real
    requires |h.boundaries| == |h.counts| + 1 && k <= |h.counts|
  {
    if k == 0 then 0.0
    else Mass(h, lo, hi, k - 1) + Share(h.boundaries[k - 1], h.boundaries[k], h.counts[k - 1] as real, lo, hi)
  }

  /** The cast of a float to u64: truncation toward zero, saturating at both ends. */
  function Truncate(e: real): u64 {
    if e < 0.0 then 0 else if e.Floor >= U64_MAX then U64_MAX else e.Floor
  }

  /** What the loop adds up, before truncation. */
  function RangeMass(h: BucketHist, lo: real, hi: real): real
    requires |h.boundaries| == |h.counts| + 1
  {
    if lo > hi then 0.0 else Mass(h, lo, hi, |h.counts|)
  }

  method EstimateRange(h: BucketHist, lo: real, hi: real) returns (estimate: u64)
    requires |h.boundaries| == |h.counts| + 1
    ensures estimate == Truncate(RangeMass(h, lo, hi))
    ensures 0.0 <= RangeMass(h, lo, hi) < U64_MAX as real ==>
              estimate as real <= RangeMass(h, lo, hi) < estimate as real + 1.0
  {
    if lo > hi || h.counts == [] {
      return 0;
    }
    var e := 0.0;
    for i := 0 to |h.counts|
      invariant e == Mass(h, lo, hi, i)
    {
      var bl, bh, c := h.boundaries[i], h.boundaries[i + 1], h.counts[i] as real;
      if bh < lo || bl > hi {
        continue;
      }
      if bl >= lo && bh <= hi {
        e := e + c;
        continue;
      }
      var bw := MaxReal(bh - bl, EPSILON);
      var ow := MaxReal(MinReal(bh, hi) - MaxReal(bl, lo), 0.0);
      e := e + c * (ow / bw);
    }
    estimate := Truncate(MaxReal(e, 0.0));
  }

  lemma DivideMonotone(a: real, b: real, d: real)
    requires a <= b && d > 0.0
    ensures a / d <= b / d
  {
  }

  lemma ScaleMonotone(c: real, a: real, b: real)
    requires c >= 0.0 && a <= b
    ensures c * a <= c * b
  {
  }

  /** A part of a positive whole, scaled, stays between nothing and all. */
  lemma PartOfWhole(c: real, part: real, whole: real)
    requires c >= 0.0 && 0.0 <= part <= whole && whole > 0.0
    ensures 0.0 <= c * (part / whole) <= c
  {
    var f := part / whole;
    assert 0.0 <= f <= 1.0;
    ScaleMonotone(c, 0.0, f);
    ScaleMonotone(c, f, 1.0);
  }

  lemma ShareBounds(bl: real, bh: real, c: real, lo: real, hi: real)
    requires bl <= bh && lo <= hi && c >= 0.0
    ensures 0.0 <= Share(bl, bh, c, lo, hi) <= c
  {
    if bh >= lo && bl <= hi && (bl < lo || bh > hi) {
      var bw := MaxReal(bh - bl, EPSILON);
      var ow := MaxReal(MinReal(bh, hi) - MaxReal(bl, lo), 0.0);
      PartOfWhole(c, ow, bw);
      assert Share(bl, bh, c, lo, hi) == c * (ow / bw);
    }
  }

  /**
    A bucket at least as wide as the spacing of doubles is shared out in proportion to how
    much of it, from x to y, lies in the range; a point bucket in the range counts in full.
   */
  lemma ShareIsProportional(bl: real, bh: real, c: real, lo: real, hi: real, x: real, y: real)
    requires lo <= hi && bl <= x <= y <= bh
    requires x == MaxReal(bl, lo) && y == MinReal(bh, hi)
    ensures bh - bl >= EPSILON ==> Share(bl, bh, c, lo, hi) == c * ((y - x) / (bh - bl))
    ensures bl == bh ==> Share(bl, bh, c, lo, hi) == c
  {
    if bh - bl >= EPSILON && x == bl && y == bh {
      assert (y - x) / (bh - bl) == 1.0;
    }
  }

  lemma ShareMonotone(bl: real, bh: real, c: real, lo: real, hi: real, lo': real, hi': real)
    requires bl <= bh && lo' <= lo <= hi <= hi' && c >= 0.0
    ensures Share(bl, bh, c, lo, hi) <= Share(bl, bh, c, lo', hi')
  {
    ShareBounds(bl, bh, c, lo, hi);
    ShareBounds(bl, bh, c, lo', hi');
    if bh >= lo && bl <= hi && (bl < lo' || bh > hi') {
      var bw := MaxReal(bh - bl, EPSILON);
      var ow := MaxReal(MinReal(bh, hi) - MaxReal(bl, lo), 0.0);
      var ow' := MaxReal(MinReal(bh, hi') - MaxReal(bl, lo'), 0.0);
      assert Share(bl, bh, c, lo, hi) == c * (ow / bw);
      assert Share(bl, bh, c, lo', hi') == c * (ow' / bw);
      DivideMonotone(ow, ow', bw);
      ScaleMonotone(c, ow / bw, ow' / bw);
    }
  }

  lemma {:induction false} MassMonotone(h: BucketHist, lo: real, hi: real, lo': real, hi': real, k: nat)
    requires h.Valid() && k <= |h.counts| && lo' <= lo <= hi <= hi'
    ensures 0.0 <= Mass(h, lo, hi, k) <= Mass(h, lo', hi', k)
  {
    if k > 0 {
      MassMonotone(h, lo, hi, lo', hi', k - 1);
      ShareBounds(h.boundaries[k - 1], h.boundaries[k], h.counts[k - 1] as real, lo, hi);
      ShareMonotone(h.boundaries[k - 1], h.boundaries[k], h.counts[k - 1] as real, lo, hi, lo', hi');
    }
  }

  /** A wider range never gets a smaller estimate. */
  lemma EstimateMonotone(h: BucketHist, lo: real, hi: real, lo': real, hi': real)
    requires h.Valid() && lo' <= lo && hi <= hi'
    ensures Truncate(RangeMass(h, lo, hi)) <= Truncate(RangeMass(h, lo', hi'))
  {
    if lo <= hi {
      MassMonotone(h, lo, hi, lo', hi', |h.counts|);
    }
  }

  lemma {:induction false} MassOfCover(h: BucketHist, lo: real, hi: real, k: nat)
    requires h.Valid() && k <= |h.counts| && lo <= h.boundaries[0] && h.boundaries[|h.counts|] <= hi
    ensures Mass(h, lo, hi, k) == Sum(h.counts[..k]) as real
  {
    if k > 0 {
      MassOfCover(h, lo, hi, k - 1);
      assert h.counts[..k] == h.counts[..k - 1] + [h.counts[k - 1]];
      SumOfConcat(h.counts[..k - 1], [h.counts[k - 1]]);
      assert Sum([h.counts[k - 1]]) == h.counts[k - 1];
      assert h.boundaries[0] <= h.boundaries[k - 1] <= h.boundaries[k] <= h.boundaries[|h.counts|];
    }
  }

  /** A range that covers every boundary is estimated at exactly the total count. */
  lemma EstimateOfCover(h: BucketHist, lo: real, hi: real)
    requires h.Valid() && lo <= h.boundaries[0] && h.boundaries[|h.counts|] <= hi
    ensures RangeMass(h, lo, hi) == Sum(h.counts) as real
    ensures Truncate(RangeMass(h, lo, hi)) == Min(Sum(h.counts), U64_MAX)
  {
    MassOfCover(h, lo, hi, |h.counts|);
    assert h.counts[..|h.counts|] == h.counts;
    assert h.boundaries[0] <= h.boundaries[|h.counts|];
  }
}
