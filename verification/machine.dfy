/** Machine integers and the saturating arithmetic the bounds are computed in. */
module Machine {
  const U32_SPAN: nat := 0x1_0000_0000
  const U64_MAX: nat := 0xFFFF_FFFF_FFFF_FFFF
  const U128_MAX: nat := 0xFFFF_FFFF_FFFF_FFFF_FFFF_FFFF_FFFF_FFFF

  type u32 = x: int | 0 <= x < U32_SPAN
  type u64 = x: int | 0 <= x <= U64_MAX
  type u128 = x: int | 0 <= x <= U128_MAX

  datatype Option<+T> = None | Some(value: T)

  function Min(a: int, b: int): int {
    if a < b then a else b
  }

  function Max(a: int, b: int): int {
    if a < b then b else a
  }

  function MaxReal(a: real, b: real): real {
    if a < b then b else a
  }

  function MinReal(a: real, b: real): real {
    if a < b then a else b
  }

  /** The exact product of a sequence of naturals. */
  function Product(s: seq<nat>): nat {
    if s == [] then 1 else s[0] * Product(s[1..])
  }

  /** The exact sum of a sequence of naturals. */
  function Sum(s: seq<nat>): nat {
    if s == [] then 0 else s[0] + Sum(s[1..])
  }

  function Pow2(n: nat): (p: nat)
    ensures p >= 1
  {
    if n == 0 then 1 else 2 * Pow2(n - 1)
  }

  lemma {:induction false} PowersMultiply(a: nat, b: nat)
    ensures Pow2(a + b) == Pow2(a) * Pow2(b)
  {
    if a > 0 {
      PowersMultiply(a - 1, b);
      MulAssociates(2, Pow2(a - 1), Pow2(b));
    }
  }

  lemma {:induction false} PowersGrow(a: nat, b: nat)
    requires a <= b
    ensures Pow2(a) <= Pow2(b)
    decreases b
  {
    if a < b {
      PowersGrow(a, b - 1);
    }
  }

  /** The ranges of the machine integers are the powers of two they are named after. */
  lemma HalfWordSize()
    ensures Pow2(32) == U32_SPAN
  {
    assert Pow2(8) == 256;
    PowersMultiply(8, 8);
    PowersMultiply(16, 16);
  }

  lemma WordSize()
    ensures Pow2(64) == U64_MAX + 1
  {
    HalfWordSize();
    PowersMultiply(32, 32);
  }

  lemma DoubleWordSize()
    ensures Pow2(128) == U128_MAX + 1
  {
    WordSize();
    PowersMultiply(64, 64);
  }

  function SaturatingAdd32(a: u32, b: u32): u32 {
    if a + b >= U32_SPAN then U32_SPAN - 1 else a + b
  }

  function SaturatingMul64(a: u64, b: u64): u64 {
    if a * b > U64_MAX then U64_MAX else a * b
  }

  function SaturatingMul128(a: u128, b: u128): u128 {
    if a * b > U128_MAX then U128_MAX else a * b
  }

  lemma ProductOfConcat(s: seq<nat>, t: seq<nat>)
    ensures Product(s + t) == Product(s) * Product(t)
  {
    if s == [] {
      assert s + t == t;
    } else {
      assert (s + t)[1..] == s[1..] + t;
      ProductOfConcat(s[1..], t);
      MulAssociates(s[0], Product(s[1..]), Product(t));
    }
  }

  lemma SumOfConcat(s: seq<nat>, t: seq<nat>)
    ensures Sum(s + t) == Sum(s) + Sum(t)
  {
    if s == [] {
      assert s + t == t;
    } else {
      assert (s + t)[1..] == s[1..] + t;
      SumOfConcat(s[1..], t);
    }
  }

  lemma MulAssociates(a: int, b: int, c: int)
    ensures a * (b * c) == (a * b) * c
  {
  }

  lemma MulMonotone(a: nat, b: nat, c: nat, d: nat)
    requires a <= c && b <= d
    ensures a * b <= c * d
  {
    assert a * b <= c * b;
    assert c * b <= c * d;
  }

  /** Two u64 factors never saturate a u128 product. */
  lemma WideProductIsExact(a: u64, b: u64)
    ensures a * b <= U128_MAX
    ensures SaturatingMul128(a, b) == a * b
  {
    MulMonotone(a, b, U64_MAX, U64_MAX);
  }
}
