/**
  Products that saturate: the plain saturating fold, and the fold that returns
  as soon as the running product reaches the ceiling of the type.
 */
module Saturation {
  import opened Machine

  function Clamp(x: nat): u64 {
    if x >= U64_MAX then U64_MAX else x
  }

  /** Multiplies the factors in from left to right, stopping at the first product that fills a u64. */
  function EarlyExitProduct(bound: nat, factors: seq<u64>): u64
    decreases |factors|
  {
    if factors == [] then Clamp(bound)
    else if bound * factors[0] >= U64_MAX then U64_MAX
    else EarlyExitProduct(bound * factors[0], factors[1..])
  }

  /** Some prefix of the factors already fills a u64 while a factor after it is zero. */
  ghost predicate FillsBeforeZero(bound: nat, factors: seq<u64>) {
    exists k :: FillsAt(bound, factors, k)
  }

  ghost predicate FillsAt(bound: nat, factors: seq<u64>, k: int) {
    0 < k <= |factors| && bound * Product(factors[..k]) >= U64_MAX && 0 in factors[k..]
  }

  lemma ZeroFactor(factors: seq<nat>)
    requires 0 in factors
    ensures Product(factors) == 0
  {
    if factors[0] != 0 {
      ZeroFactor(factors[1..]);
    }
  }

  lemma PositiveProduct(factors: seq<nat>)
    requires 0 !in factors
    ensures Product(factors) >= 1
  {
    if factors != [] {
      PositiveProduct(factors[1..]);
      MulMonotone(1, 1, factors[0], Product(factors[1..]));
    }
  }

  lemma UnrollProduct(bound: nat, factors: seq<nat>)
    requires factors != []
    ensures bound * Product(factors) == (bound * factors[0]) * Product(factors[1..])
  {
    MulAssociates(bound, factors[0], Product(factors[1..]));
  }

  lemma UnrollPrefix(bound: nat, factors: seq<nat>, k: nat)
    requires 0 < k <= |factors|
    ensures bound * Product(factors[..k]) == (bound * factors[0]) * Product(factors[1..][..k - 1])
    ensures factors[1..][k - 1..] == factors[k..]
  {
    assert factors[..k][1..] == factors[1..][..k - 1];
    UnrollProduct(bound, factors[..k]);
  }

  /** Stopping early changes the result exactly when a zero factor was still to come. */
  lemma {:induction false} EarlyExitExact(bound: nat, factors: seq<u64>)
    ensures EarlyExitProduct(bound, factors) ==
            if FillsBeforeZero(bound, factors) then U64_MAX else Clamp(bound * Product(factors))
    ensures FillsBeforeZero(bound, factors) ==> Product(factors) == 0
    decreases |factors|
  {
    if factors != [] {
      var next, rest := bound * factors[0], factors[1..];
      UnrollProduct(bound, factors);
      if FillsBeforeZero(bound, factors) {
        var k :| FillsAt(bound, factors, k);
        assert 0 in factors;
        ZeroFactor(factors);
      }
      if next >= U64_MAX {
        assert factors[..1] == [factors[0]] && Product(factors[..1]) == factors[0];
        if 0 in rest {
          assert FillsAt(bound, factors, 1);
        } else {
          PositiveProduct(rest);
          MulMonotone(next, 1, next, Product(rest));
          assert forall k | 0 < k <= |factors| :: factors[k..] == rest[k - 1..];
        }
      } else {
        EarlyExitExact(next, rest);
        ShiftedFill(bound, factors);
      }
    }
  }

  lemma ShiftedFillAt(bound: nat, factors: seq<u64>, k: int)
    requires factors != [] && bound * factors[0] < U64_MAX
    ensures FillsAt(bound, factors, k) <==> FillsAt(bound * factors[0], factors[1..], k - 1)
  {
    if 0 < k <= |factors| {
      UnrollPrefix(bound, factors, k);
      assert factors[1..][..0] == [];
    }
  }

  lemma ShiftedFill(bound: nat, factors: seq<u64>)
    requires factors != [] && bound * factors[0] < U64_MAX
    ensures FillsBeforeZero(bound, factors) <==> FillsBeforeZero(bound * factors[0], factors[1..])
  {
    if FillsBeforeZero(bound, factors) {
      var k :| FillsAt(bound, factors, k);
      ShiftedFillAt(bound, factors, k);
    }
    if FillsBeforeZero(bound * factors[0], factors[1..]) {
      var k :| FillsAt(bound * factors[0], factors[1..], k);
      ShiftedFillAt(bound, factors, k + 1);
    }
  }

  /**
    If every factor is at least the matching size, up to saturation, then so is the
    early-exit product.
   */
  lemma {:induction false} EarlyExitCovers(have: nat, bound: nat, sizes: seq<nat>, factors: seq<u64>)
    requires |sizes| == |factors| && have <= bound
    requires forall i | 0 <= i < |sizes| :: Min(sizes[i], U64_MAX) <= factors[i]
    ensures Min(have * Product(sizes), U64_MAX) <= EarlyExitProduct(bound, factors)
    decreases |sizes|
  {
    if factors != [] {
      UnrollProduct(have, sizes);
      var next := bound * factors[0];
      if next < U64_MAX {
        assert have * sizes[0] <= next by {
          if factors[0] == U64_MAX {
            assert bound == 0;
          } else {
            MulMonotone(have, sizes[0], bound, factors[0]);
          }
        }
        EarlyExitCovers(have * sizes[0], next, sizes[1..], factors[1..]);
      }
    }
  }

  /** The early-exit product never exceeds the exact product of larger, positive factors. */
  lemma {:induction false} EarlyExitWithin(factors: seq<u64>, caps: seq<nat>)
    requires |factors| == |caps|
    requires forall i | 0 <= i < |caps| :: factors[i] <= caps[i] && caps[i] >= 1
    ensures EarlyExitProduct(1, factors) <= Clamp(Product(caps))
  {
    EarlyExitExact(1, factors);
    ProductMonotone(factors, caps);
    if FillsBeforeZero(1, factors) {
      var k :| FillsAt(1, factors, k);
      ProductMonotone(factors[..k], caps[..k]);
      assert caps == caps[..k] + caps[k..];
      ProductOfConcat(caps[..k], caps[k..]);
      assert 0 !in caps[k..];
      PositiveProduct(caps[k..]);
      MulMonotone(Product(caps[..k]), 1, Product(caps[..k]), Product(caps[k..]));
    }
  }

  lemma ProductMonotone(s: seq<nat>, t: seq<nat>)
    requires |s| == |t| && forall i | 0 <= i < |s| :: s[i] <= t[i]
    ensures Product(s) <= Product(t)
  {
    if s != [] {
      ProductMonotone(s[1..], t[1..]);
      MulMonotone(s[0], Product(s[1..]), t[0], Product(t[1..]));
    }
  }

  /** The fold of `ProductBound`. */
  method ProductBoundCeiling(relations: seq<u64>) returns (ceiling: u64)
    ensures ceiling == Clamp(Product(relations))
  {
    ceiling := 1;
    for i := 0 to |relations|
      invariant ceiling == Clamp(Product(relations[..i]))
    {
      FoldStep(relations, i);
      ceiling := SaturatingMul64(ceiling, relations[i]);
    }
    assert relations[..|relations|] == relations;
  }

  /** Saturating one factor at a time loses nothing: a zero still brings the product to zero. */
  lemma FoldStep(relations: seq<u64>, i: nat)
    requires i < |relations|
    ensures SaturatingMul64(Clamp(Product(relations[..i])), relations[i]) == Clamp(Product(relations[..i + 1]))
  {
    var before, n := Product(relations[..i]), relations[i];
    assert relations[..i + 1] == relations[..i] + [n];
    ProductOfConcat(relations[..i], [n]);
    assert Product([n]) == n;
    if before > U64_MAX && n > 0 {
      MulMonotone(U64_MAX, 1, before, n);
      MulMonotone(U64_MAX, 1, U64_MAX, n);
    }
  }
}
