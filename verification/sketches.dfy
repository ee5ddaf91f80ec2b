/** Count-Min and HyperLogLog sketches (`samkhya-core/src/sketches`), for every hash function. */
module Sketches {
  import opened Machine
  import opened Counting

  type Item = seq<nat>

  datatype Addition = Addition(item: Item, count: u32)

  const U32_MAX: nat := U32_SPAN - 1

  datatype Result = Merged | Mismatch

  // Count-Min.

  /** Where a row of counters starts: the rows stand one after the other. */
  function RowStart(row: nat, width: nat): nat {
    if row == 0 then 0 else RowStart(row - 1, width) + width
  }

  lemma RowStartIsProduct(row: nat, width: nat)
    ensures RowStart(row, width) == row * width
  {
    if row > 0 {
      assert row * width == (row - 1) * width + width;
    }
  }

  /** The row a counter belongs to. */
  function RowOf(pos: nat, width: nat): nat
    requires width > 0
  {
    if pos < width then 0 else RowOf(pos - width, width) + 1
  }

  function Column(hash: (Item, nat) -> u64, width: nat, item: Item, row: nat): (column: nat)
    requires width > 0
    ensures column < width
  {
    hash(item, row) % width
  }

  /** The column is what remains of the hash after taking away multiples of the width. */
  lemma ColumnIsRemainder(hash: (Item, nat) -> u64, width: nat, item: Item, row: nat)
    requires width > 0
    ensures exists q: nat :: hash(item, row) == q * width + Column(hash, width, item, row)
  {
    var h := hash(item, row);
    assert h == h / width * width + h % width;
  }

  /** Where an item is counted in a row. */
  function Position(hash: (Item, nat) -> u64, width: nat, item: Item, row: nat): nat
    requires width > 0
  {
    RowStart(row, width) + Column(hash, width, item, row)
  }

  lemma {:induction false} RowOfStart(row: nat, width: nat, column: nat)
    requires column < width
    ensures RowOf(RowStart(row, width) + column, width) == row
  {
    if row > 0 {
      RowOfStart(row - 1, width, column);
    }
  }

  lemma {:induction false} RowsInOrder(row: nat, depth: nat, width: nat)
    requires row <= depth
    ensures RowStart(row, width) <= RowStart(depth, width)
    decreases depth
  {
    if row < depth {
      RowsInOrder(row, depth - 1, width);
    }
  }

  lemma {:induction false} RowOfBelow(pos: nat, depth: nat, width: nat)
    requires width > 0 && pos < RowStart(depth, width)
    ensures RowOf(pos, width) < depth
  {
    if pos >= width {
      RowOfBelow(pos - width, depth - 1, width);
    }
  }

  lemma PositionInRow(hash: (Item, nat) -> u64, depth: nat, width: nat, item: Item, row: nat)
    requires width > 0 && row < depth
    ensures Position(hash, width, item, row) < RowStart(depth, width)
    ensures RowOf(Position(hash, width, item, row), width) == row
  {
    RowsInOrder(row + 1, depth, width);
    RowOfStart(row, width, Column(hash, width, item, row));
  }

  /** How often an item has been added. */
  ghost function Frequency(history: seq<Addition>, item: Item): nat {
    if history == [] then 0
    else
      var last := history[|history| - 1];
      Frequency(history[..|history| - 1], item) + if last.item == item then last.count else 0
  }

  /** What all items counted at a position add up to. */
  ghost function Load(hash: (Item, nat) -> u64, width: nat, history: seq<Addition>, pos: nat): nat
    requires width > 0
  {
    if history == [] then 0
    else
      var last := history[|history| - 1];
      Load(hash, width, history[..|history| - 1], pos) +
      if Position(hash, width, last.item, RowOf(pos, width)) == pos then last.count else 0
  }

  ghost function Total(history: seq<Addition>): nat {
    if history == [] then 0 else Total(history[..|history| - 1]) + history[|history| - 1].count
  }

  /** An item's own additions are among those counted at each of its positions. */
  lemma {:induction false} FrequencyWithinLoad(hash: (Item, nat) -> u64, width: nat, history: seq<Addition>, item: Item, row: nat)
    requires width > 0
    ensures Frequency(history, item) <= Load(hash, width, history, Position(hash, width, item, row))
  {
    if history != [] {
      FrequencyWithinLoad(hash, width, history[..|history| - 1], item, row);
      PositionInRow(hash, row + 1, width, item, row);
    }
  }

  /** The least of an item's clamped loads over the first rows. */
  ghost function LeastCounter(hash: (Item, nat) -> u64, width: nat, history: seq<Addition>, item: Item, rows: nat): u32
    requires width > 0
  {
    if rows == 0 then U32_MAX
    else Min(LeastCounter(hash, width, history, item, rows - 1), Load(hash, width, history, Position(hash, width, item, rows - 1)))
  }

  /** It is one of them, at most each of them, and never below the frequency unless that does not fit a counter. */
  lemma {:induction false} LeastCounterIsLeast(hash: (Item, nat) -> u64, width: nat, history: seq<Addition>, item: Item, rows: nat)
    requires width > 0
    ensures var least := LeastCounter(hash, width, history, item, rows);
            && Min(Frequency(history, item), U32_MAX) <= least
            && (forall row: nat | row < rows :: least <= Load(hash, width, history, Position(hash, width, item, row)))
            && (rows > 0 ==> exists row: nat :: row < rows &&
                               least == Min(Load(hash, width, history, Position(hash, width, item, row)), U32_MAX))
  {
    if rows > 0 {
      LeastCounterIsLeast(hash, width, history, item, rows - 1);
      FrequencyWithinLoad(hash, width, history, item, rows - 1);
      var load := Load(hash, width, history, Position(hash, width, item, rows - 1));
      if LeastCounter(hash, width, history, item, rows) == Min(load, U32_MAX) {
        assert rows - 1 < rows;
      }
    }
  }

  lemma {:induction false} LoadOfConcat(hash: (Item, nat) -> u64, width: nat, a: seq<Addition>, b: seq<Addition>, pos: nat)
    requires width > 0
    ensures Load(hash, width, a + b, pos) == Load(hash, width, a, pos) + Load(hash, width, b, pos)
  {
    if b == [] {
      assert a + b == a;
    } else {
      assert (a + b)[..|a + b| - 1] == a + b[..|b| - 1];
      LoadOfConcat(hash, width, a, b[..|b| - 1], pos);
    }
  }

  lemma {:induction false} TotalOfConcat(a: seq<Addition>, b: seq<Addition>)
    ensures Total(a + b) == Total(a) + Total(b)
  {
    if b == [] {
      assert a + b == a;
    } else {
      assert (a + b)[..|a + b| - 1] == a + b[..|b| - 1];
      TotalOfConcat(a, b[..|b| - 1]);
    }
  }

  lemma LoadOfOne(hash: (Item, nat) -> u64, width: nat, history: seq<Addition>, a: Addition, pos: nat)
    requires width > 0
    ensures Load(hash, width, history + [a], pos) ==
            Load(hash, width, history, pos) + if Position(hash, width, a.item, RowOf(pos, width)) == pos then a.count else 0
  {
    assert (history + [a])[..|history|] == history;
  }

  /** What a counter holds while an addition has been carried out in the first rows only. */
  ghost function Partial(hash: (Item, nat) -> u64, width: nat, history: seq<Addition>, a: Addition, rows: nat, pos: nat): u32
    requires width > 0
  {
    Min(Load(hash, width, if RowOf(pos, width) < rows then history + [a] else history, pos), U32_MAX)
  }

  lemma PartialStep(hash: (Item, nat) -> u64, width: nat, history: seq<Addition>, a: Addition, row: nat, pos: nat)
    requires width > 0
    ensures Partial(hash, width, history, a, row + 1, pos) ==
            var before := Partial(hash, width, history, a, row, pos);
            if pos == Position(hash, width, a.item, row) then SaturatingAdd32(before, a.count) else before
  {
    PositionInRow(hash, row + 1, width, a.item, row);
    if RowOf(pos, width) == row {
      CountedInRow(hash, width, history, a, row, pos);
    }
  }

  lemma CountedInRow(hash: (Item, nat) -> u64, width: nat, history: seq<Addition>, a: Addition, row: nat, pos: nat)
    requires width > 0 && RowOf(pos, width) == row
    ensures Partial(hash, width, history, a, row + 1, pos) ==
            var before := Partial(hash, width, history, a, row, pos);
            if pos == Position(hash, width, a.item, row) then SaturatingAdd32(before, a.count) else before
  {
    LoadOfOne(hash, width, history, a, pos);
    var former, later := Load(hash, width, history, pos), Load(hash, width, history + [a], pos);
    assert Partial(hash, width, history, a, row, pos) == Min(former, U32_MAX);
    assert Partial(hash, width, history, a, row + 1, pos) == Min(later, U32_MAX);
  }

  ghost predicate AddedTo(hash: (Item, nat) -> u64, width: nat, history: seq<Addition>, a: Addition, rows: nat, counters: seq<u32>)
    requires width > 0
  {
    forall pos: nat | pos < |counters| :: counters[pos] == Partial(hash, width, history, a, rows, pos)
  }

  lemma AddedNowhere(hash: (Item, nat) -> u64, width: nat, history: seq<Addition>, a: Addition, counters: seq<u32>)
    requires width > 0
    requires forall pos: nat | pos < |counters| :: counters[pos] == Min(Load(hash, width, history, pos), U32_MAX)
    ensures AddedTo(hash, width, history, a, 0, counters)
  {
  }

  lemma AddInRow(hash: (Item, nat) -> u64, width: nat, history: seq<Addition>, a: Addition, row: nat, before: seq<u32>)
    requires width > 0 && AddedTo(hash, width, history, a, row, before)
    requires Position(hash, width, a.item, row) < |before|
    ensures var pos := Position(hash, width, a.item, row);
            AddedTo(hash, width, history, a, row + 1, before[pos := SaturatingAdd32(before[pos], a.count)])
  {
    var target := Position(hash, width, a.item, row);
    var after := before[target := SaturatingAdd32(before[target], a.count)];
    forall pos: nat | pos < |after| ensures after[pos] == Partial(hash, width, history, a, row + 1, pos) {
      PartialStep(hash, width, history, a, row, pos);
    }
  }

  /** After the last row the addition has been carried out everywhere. */
  lemma AddedEverywhere(hash: (Item, nat) -> u64, depth: nat, width: nat, history: seq<Addition>, a: Addition, counters: seq<u32>)
    requires width > 0 && |counters| == RowStart(depth, width) && AddedTo(hash, width, history, a, depth, counters)
    ensures forall pos: nat | pos < |counters| :: counters[pos] == Min(Load(hash, width, history + [a], pos), U32_MAX)
  {
    forall pos: nat | pos < |counters| ensures counters[pos] == Min(Load(hash, width, history + [a], pos), U32_MAX) {
      RowOfBelow(pos, depth, width);
    }
  }

  /** The counters of `history`, with those of `other` merged into the first ones. */
  ghost predicate MergedTo(hash: (Item, nat) -> u64, width: nat, history: seq<Addition>, other: seq<Addition>,
                           done: nat, counters: seq<u32>)
    requires width > 0
  {
    forall pos: nat | pos < |counters| ::
      counters[pos] == Min(Load(hash, width, if pos < done then history + other else history, pos), U32_MAX)
  }

  lemma MergeAt(hash: (Item, nat) -> u64, width: nat, history: seq<Addition>, other: seq<Addition>,
                pos: nat, before: seq<u32>, counter: u32)
    requires width > 0 && pos < |before| && MergedTo(hash, width, history, other, pos, before)
    requires counter == Min(Load(hash, width, other, pos), U32_MAX)
    ensures MergedTo(hash, width, history, other, pos + 1, before[pos := SaturatingAdd32(before[pos], counter)])
  {
    LoadOfConcat(hash, width, history, other, pos);
  }

  class CountMinSketch {
    const hash: (Item, nat) -> u64
    const depth: u32
    const width: u32
    const counters: array<u32>
    var total: u64
    /** Everything added so far. */
    ghost var history: seq<Addition>

    /** Each counter holds what was counted there, up to saturation. */
    ghost predicate Valid()
      reads this, counters
    {
      && depth > 0 && width > 0 && counters.Length == RowStart(depth, width)
      && (forall pos: nat | pos < counters.Length :: counters[pos] == Min(Load(hash, width, history, pos), U32_MAX))
      && total == Min(Total(history), U64_MAX)
    }

    /** The most that has been counted at any position. */
    ghost predicate IsLargestLoad(load: nat)
      requires width > 0
      reads this
    {
      && (exists pos: nat :: pos < RowStart(depth, width) && load == Load(hash, width, history, pos))
      && (forall pos: nat | pos < RowStart(depth, width) :: Load(hash, width, history, pos) <= load)
    }

    ghost predicate HasFullCounter()
      reads counters
    {
      exists pos :: 0 <= pos < counters.Length && counters[pos] == U32_MAX
    }

    constructor (hash: (Item, nat) -> u64, depth: u32, width: u32)
      requires depth > 0 && width > 0
      ensures Valid() && this.hash == hash && this.depth == depth && this.width == width && history == []
      ensures fresh(counters)
    {
      this.hash, this.depth, this.width := hash, depth, width;
      counters := new u32[RowStart(depth, width)](_ => 0);
      total, history := 0, [];
    }

    /** No sketch without rows or without columns; any other shape fits. */
    static method TryNew(hash: (Item, nat) -> u64, depth: u32, width: u32) returns (sketch: Option<CountMinSketch>)
      ensures sketch.None? <==> depth == 0 || width == 0
      ensures sketch.Some? ==>
                var s := sketch.value;
                && fresh(s) && fresh(s.counters) && s.Valid() && s.history == []
                && s.hash == hash && s.depth == depth && s.width == width
    {
      if depth == 0 || width == 0 {
        return None;
      }
      var s := new CountMinSketch(hash, depth, width);
      sketch := Some(s);
    }

    method Add(item: Item, count: u32)
      requires Valid()
      modifies this, counters
      ensures Valid() && history == old(history) + [Addition(item, count)]
    {
      ghost var added := Addition(item, count);
      AddedNowhere(hash, width, history, added, counters[..]);
      for row := 0 to depth
        invariant history == old(history) && total == old(total)
        invariant AddedTo(hash, width, history, added, row, counters[..])
      {
        PositionInRow(hash, depth, width, item, row);
        AddInRow(hash, width, history, added, row, counters[..]);
        var pos := Position(hash, width, item, row);
        ghost var before := counters[..];
        counters[pos] := SaturatingAdd32(counters[pos], count);
        assert counters[..] == before[pos := SaturatingAdd32(before[pos], count)];
      }
      AddedEverywhere(hash, depth, width, history, added, counters[..]);
      assert (history + [added])[..|history|] == history;
      total := Min(total + count, U64_MAX);
      history := history + [added];
    }

    /** The least counter of the item: never below its frequency while no counter is full. */
    method Estimate(item: Item) returns (estimate: u32)
      requires Valid()
      ensures estimate == LeastCounter(hash, width, history, item, depth)
      ensures !HasFullCounter() ==> Frequency(history, item) <= estimate
    {
      estimate := U32_MAX;
      for row := 0 to depth
        invariant estimate == LeastCounter(hash, width, history, item, row)
      {
        PositionInRow(hash, depth, width, item, row);
        estimate := Min(estimate, counters[Position(hash, width, item, row)]);
      }
      LeastCounterIsLeast(hash, width, history, item, depth);
      ghost var row: nat :| row < depth && estimate == Min(Load(hash, width, history, Position(hash, width, item, row)), U32_MAX);
      PositionInRow(hash, depth, width, item, row);
      assert estimate == counters[Position(hash, width, item, row)];
    }

    method IsSaturated() returns (full: bool)
      ensures full <==> HasFullCounter()
    {
      for pos := 0 to counters.Length
        invariant forall p | 0 <= p < pos :: counters[p] != U32_MAX
      {
        if counters[pos] == U32_MAX {
          return true;
        }
      }
      full := false;
    }

    /** No item is more frequent than the largest counter, as long as no counter is full. */
    method MaxFrequencyBound() returns (bound: Option<u32>)
      requires Valid()
      ensures bound.None? <==> HasFullCounter()
      ensures bound.Some? ==> forall item :: Frequency(history, item) <= bound.value
      ensures bound.Some? ==> IsLargestLoad(bound.value)
    {
      var full := IsSaturated();
      if full {
        return None;
      }
      RowsInOrder(1, depth, width);
      var largest := counters[0];
      for pos := 1 to counters.Length
        invariant forall p | 0 <= p < pos :: counters[p] <= largest
        invariant exists p: nat :: p < pos && counters[p] == largest
      {
        if counters[pos] > largest {
          largest := counters[pos];
        }
      }
      forall item ensures Frequency(history, item) <= largest {
        PositionInRow(hash, depth, width, item, 0);
        FrequencyWithinLoad(hash, width, history, item, 0);
      }
      bound := Some(largest);
    }

    /** The sketch of both histories, or no change when the shapes differ. */
    method Merge(other: CountMinSketch) returns (result: Result)
      requires Valid() && other.Valid() && other.hash == hash && other != this && other.counters != counters
      modifies this, counters
      ensures Valid()
      ensures result == if depth == other.depth && width == other.width then Merged else Mismatch
      ensures history == if result.Merged? then old(history) + other.history else old(history)
    {
      if depth != other.depth || width != other.width {
        return Mismatch;
      }
      for pos := 0 to counters.Length
        invariant history == old(history) && total == old(total)
        invariant MergedTo(hash, width, history, other.history, pos, counters[..])
      {
        ghost var before := counters[..];
        MergeAt(hash, width, history, other.history, pos, before, other.counters[pos]);
        counters[pos] := SaturatingAdd32(counters[pos], other.counters[pos]);
        assert counters[..] == before[pos := SaturatingAdd32(before[pos], other.counters[pos])];
      }
      TotalOfConcat(history, other.history);
      total := Min(total + other.total, U64_MAX);
      history := history + other.history;
      result := Merged;
    }
  }

  // HyperLogLog.

  function LeadingZeros(w: u64): nat
    requires w > 0
    decreases U64_MAX - w
  {
    if 2 * w > U64_MAX then 0 else 1 + LeadingZeros(2 * w)
  }

  function Divide(n: nat, d: nat): nat
    requires d > 0
  {
    n / d
  }

  lemma QuotientBelow(n: nat, d: nat, limit: nat)
    requires d > 0 && n < limit * d
    ensures Divide(n, d) < limit
  {
    assert n == n / d * d + n % d;
    if Divide(n, d) >= limit {
      MulMonotone(limit, d, Divide(n, d), d);
    }
  }

  /** The register of a hash: its top bits. */
  function Register(precision: nat, h: u64): nat
    requires precision <= 64
  {
    Divide(h, Pow2(64 - precision))
  }

  lemma RegisterInRange(precision: nat, h: u64)
    requires precision <= 64
    ensures Register(precision, h) < Pow2(precision)
  {
    WordSize();
    PowersMultiply(precision, 64 - precision);
    QuotientBelow(h, Pow2(64 - precision), Pow2(precision));
  }

  /** The position of the first one among the remaining bits, from 1. */
  function Rank(precision: nat, h: u64): (rank: nat)
    requires precision <= 64
    ensures 1 <= rank <= 255
  {
    var w := ShiftedOut(precision, h);
    Min(if w == 0 then 64 - precision + 1 else LeadingZeros(w) + 1, 255)
  }

  /** The hash shifted left in its 64 bits. */
  function ShiftedOut(precision: nat, h: u64): u64 {
    h * Pow2(precision) % (U64_MAX + 1)
  }

  /** The bits of the hash below those that name the register. */
  ghost function Rest(precision: nat, h: u64): nat
    requires precision <= 64
  {
    h - Register(precision, h) * Pow2(64 - precision)
  }

  /** The register takes the top bits and leaves a rest that fits the bits below them. */
  lemma RegisterTakesTop(precision: nat, h: u64)
    requires precision <= 64
    ensures h == Register(precision, h) * Pow2(64 - precision) + Rest(precision, h)
    ensures 0 <= Rest(precision, h) < Pow2(64 - precision)
  {
    var d := Pow2(64 - precision);
    assert h == h / d * d + h % d;
  }

  lemma {:induction false} LeadingZerosPlace(w: u64)
    requires w > 0
    ensures LeadingZeros(w) <= 63
    ensures Pow2(63 - LeadingZeros(w)) <= w < Pow2(64 - LeadingZeros(w))
    decreases U64_MAX - w
  {
    WordSize();
    if 2 * w <= U64_MAX {
      LeadingZerosPlace(2 * w);
    }
  }

  lemma ShiftedRest(precision: nat, h: u64)
    requires precision <= 64
    ensures ShiftedOut(precision, h) == Rest(precision, h) * Pow2(precision)
  {
    var shift, d, register, rest := Pow2(precision), Pow2(64 - precision), Register(precision, h), Rest(precision, h);
    RegisterTakesTop(precision, h);
    WordSize();
    PowersMultiply(precision, 64 - precision);
    WrapAround(register, rest, d, shift);
  }

  lemma WrapAround(register: nat, rest: nat, d: nat, shift: nat)
    requires shift * d == U64_MAX + 1 && shift >= 1 && rest < d
    ensures (register * d + rest) * shift % (U64_MAX + 1) == rest * shift <= U64_MAX
  {
    MulMonotone(rest + 1, shift, d, shift);
    var word: nat := U64_MAX + 1;
    assert register * d * shift == register * word by {
      MulAssociates(register, d, shift);
    }
    assert (register * d + rest) * shift == register * word + rest * shift;
    Remainder(register, word, rest * shift);
  }

  lemma Remainder(q: nat, word: nat, r: nat)
    requires r < word && word == U64_MAX + 1
    ensures (q * word + r) % word == r
  {
  }

  /**
    The rank is the place of the highest one among the bits below the register's, counted
    from 1 at the top, and one more than there are such bits if all are zero.
   */
  lemma RankIsFirstOne(precision: nat, h: u64)
    requires precision <= 64
    ensures var bits, rest, rank := 64 - precision, Rest(precision, h), Rank(precision, h);
            if rest == 0 then rank == bits + 1
            else rank <= bits && Pow2(bits - rank) <= rest < Pow2(bits - rank + 1)
  {
    RegisterTakesTop(precision, h);
    ShiftedRest(precision, h);
    FirstOneOf(precision, Rest(precision, h), ShiftedOut(precision, h));
  }

  lemma FirstOneOf(precision: nat, rest: nat, w: u64)
    requires precision <= 64 && rest < Pow2(64 - precision) && w == rest * Pow2(precision)
    ensures w == 0 <==> rest == 0
    ensures rest > 0 ==>
              var bits, place := 64 - precision, LeadingZeros(w) + 1;
              place <= bits && Pow2(bits - place) <= rest < Pow2(bits - place + 1)
  {
    if rest > 0 {
      MulMonotone(1, 1, rest, Pow2(precision));
      LeadingZerosPlace(w);
      UnshiftPlace(precision, rest, LeadingZeros(w));
    }
  }

  lemma UnshiftPlace(precision: nat, rest: nat, zeros: nat)
    requires precision <= 64 && zeros <= 63 && 0 < rest < Pow2(64 - precision)
    requires Pow2(63 - zeros) <= rest * Pow2(precision) < Pow2(64 - zeros)
    ensures zeros < 64 - precision
    ensures Pow2(63 - precision - zeros) <= rest < Pow2(64 - precision - zeros)
  {
    var shift := Pow2(precision);
    assert zeros < 64 - precision by {
      if zeros >= 64 - precision {
        PowersGrow(64 - zeros, precision);
        MulMonotone(1, shift, rest, shift);
      }
    }
    PowersMultiply(63 - precision - zeros, precision);
    PowersMultiply(64 - precision - zeros, precision);
    DivideOut(Pow2(63 - precision - zeros), rest, Pow2(64 - precision - zeros), shift);
  }

  lemma DivideOut(low: nat, x: nat, high: nat, shift: nat)
    requires shift > 0 && low * shift <= x * shift < high * shift
    ensures low <= x < high
  {
    if x < low {
      MulMonotone(x + 1, shift, low, shift);
    }
    if high <= x {
      MulMonotone(high, shift, x, shift);
    }
  }

  /** The largest rank among the items of a register, or 0. */
  ghost function MaxRank(hash: Item -> u64, precision: nat, items: seq<Item>, register: nat): nat
    requires precision <= 64
  {
    if items == [] then 0
    else
      var last := hash(items[|items| - 1]);
      var before := MaxRank(hash, precision, items[..|items| - 1], register);
      if Register(precision, last) == register then Max(before, Rank(precision, last)) else before
  }

  /** It is at least every such rank, and one of them unless there is none: order and repetition do not matter. */
  lemma {:induction false} MaxRankIsMax(hash: Item -> u64, precision: nat, items: seq<Item>, register: nat)
    requires precision <= 64
    ensures var m := MaxRank(hash, precision, items, register);
            && (forall x | x in items && Register(precision, hash(x)) == register :: Rank(precision, hash(x)) <= m)
            && (m > 0 ==> exists x :: x in items && Register(precision, hash(x)) == register && Rank(precision, hash(x)) == m)
  {
    if items != [] {
      var before, last := items[..|items| - 1], items[|items| - 1];
      MaxRankIsMax(hash, precision, before, register);
      assert forall x :: x in items <==> x in before || x == last;
    }
  }

  lemma MaxRankOfSet(hash: Item -> u64, precision: nat, a: seq<Item>, b: seq<Item>, register: nat)
    requires precision <= 64 && forall x :: x in a <==> x in b
    ensures MaxRank(hash, precision, a, register) == MaxRank(hash, precision, b, register)
  {
    MaxRankIsMax(hash, precision, a, register);
    MaxRankIsMax(hash, precision, b, register);
  }

  lemma MaxRankOfBoth(hash: Item -> u64, precision: nat, a: seq<Item>, b: seq<Item>, register: nat)
    requires precision <= 64
    ensures MaxRank(hash, precision, a + b, register) ==
            Max(MaxRank(hash, precision, a, register), MaxRank(hash, precision, b, register))
  {
    MaxRankIsMax(hash, precision, a, register);
    MaxRankIsMax(hash, precision, b, register);
    MaxRankIsMax(hash, precision, a + b, register);
  }

  ghost function DistinctItems(items: seq<Item>): set<Item> {
    set x | x in items
  }

  ghost function Occupied(hash: Item -> u64, precision: nat, items: seq<Item>, n: nat): set<nat>
    requires precision <= 64
  {
    set r | r in Below(n) && MaxRank(hash, precision, items, r) > 0
  }

  lemma OccupiedNext(hash: Item -> u64, precision: nat, items: seq<Item>, n: nat)
    requires precision <= 64
    ensures |Occupied(hash, precision, items, n + 1)| ==
            |Occupied(hash, precision, items, n)| + if MaxRank(hash, precision, items, n) > 0 then 1 else 0
  {
    var more := Occupied(hash, precision, items, n + 1);
    assert more - {n} == Occupied(hash, precision, items, n);
    assert n in more <==> MaxRank(hash, precision, items, n) > 0;
  }

  /** Every occupied register has an item of its own. */
  lemma OccupiedWithinDistinct(hash: Item -> u64, precision: nat, items: seq<Item>)
    requires precision <= 64
    ensures |Occupied(hash, precision, items, Pow2(precision))| <= |DistinctItems(items)|
  {
    var all, occupied := DistinctItems(items), Occupied(hash, precision, items, Pow2(precision));
    var f := (x: Item) => Register(precision, hash(x));
    forall x | x in all ensures f(x) in occupied {
      RegisterInRange(precision, hash(x));
      MaxRankIsMax(hash, precision, items, f(x));
    }
    forall r | r in occupied ensures 1 <= |Fibre(all, f, r)| <= |all| {
      MaxRankIsMax(hash, precision, items, r);
      var x :| x in items && Register(precision, hash(x)) == r;
      SomeInFibre(all, f, x);
    }
    FibreBounds(all, occupied, f, 1, |all|);
  }

  lemma SomeInFibre(all: set<Item>, f: Item -> nat, x: Item)
    requires x in all
    ensures 1 <= |Fibre(all, f, f(x))| <= |all|
  {
    assert x in Fibre(all, f, f(x));
    SubsetCount({x}, Fibre(all, f, f(x)));
    SubsetCount(Fibre(all, f, f(x)), all);
  }

  class HllSketch {
    const hash: Item -> u64
    const precision: nat
    const registers: array<nat>
    /** Everything added so far. */
    ghost var items: seq<Item>

    /** Each register holds the largest rank of its items. */
    ghost predicate Valid()
      reads this, registers
    {
      && 4 <= precision <= 18 && registers.Length == Pow2(precision)
      && forall r: nat | r < registers.Length :: registers[r] == MaxRank(hash, precision, items, r)
    }

    constructor (hash: Item -> u64, precision: nat)
      requires 4 <= precision <= 18
      ensures Valid() && this.hash == hash && this.precision == precision && items == []
      ensures fresh(registers)
    {
      this.hash, this.precision := hash, precision;
      registers := new nat[Pow2(precision)](_ => 0);
      items := [];
    }

    /** Only precisions from 4 to 18 are accepted. */
    static method TryNew(hash: Item -> u64, precision: nat) returns (sketch: Option<HllSketch>)
      ensures sketch.None? <==> precision < 4 || precision > 18
      ensures sketch.Some? ==>
                var s := sketch.value;
                && fresh(s) && fresh(s.registers) && s.Valid() && s.items == []
                && s.hash == hash && s.precision == precision
    {
      if precision < 4 || precision > 18 {
        return None;
      }
      var s := new HllSketch(hash, precision);
      sketch := Some(s);
    }

    method Add(item: Item)
      requires Valid()
      modifies this, registers
      ensures Valid() && items == old(items) + [item]
    {
      var h := hash(item);
      var idx, rank := Register(precision, h), Rank(precision, h);
      RegisterInRange(precision, h);
      if rank > registers[idx] {
        registers[idx] := rank;
      }
      assert (items + [item])[..|items|] == items;
      items := items + [item];
    }

    /** The registers of both, or no change when the precisions differ. */
    method Merge(other: HllSketch) returns (result: Result)
      requires Valid() && other.Valid() && other.hash == hash && other != this && other.registers != registers
      modifies this, registers
      ensures Valid()
      ensures result == if precision == other.precision then Merged else Mismatch
      ensures items == if result.Merged? then old(items) + other.items else old(items)
    {
      if precision != other.precision {
        return Mismatch;
      }
      for r := 0 to registers.Length
        invariant items == old(items)
        invariant forall k: nat | k < registers.Length ::
                    registers[k] == MaxRank(hash, precision, if k < r then items + other.items else items, k)
      {
        MaxRankOfBoth(hash, precision, items, other.items, r);
        if other.registers[r] > registers[r] {
          registers[r] := other.registers[r];
        }
      }
      items := items + other.items;
      result := Merged;
    }

    /** A floor on the number of distinct items. */
    method NonzeroRegisters() returns (n: nat)
      requires Valid()
      ensures n == |Occupied(hash, precision, items, Pow2(precision))|
      ensures n <= |DistinctItems(items)| && n <= Pow2(precision)
    {
      n := 0;
      for r := 0 to registers.Length
        invariant n == |Occupied(hash, precision, items, r)| && n <= r
      {
        OccupiedNext(hash, precision, items, r);
        if registers[r] != 0 {
          n := n + 1;
        }
      }
      OccupiedWithinDistinct(hash, precision, items);
    }
  }
}
