/** Where degree bounds come from: row counts, distinct counts, frequency ceilings, sketches. */
module DegreeStatistics {
  import opened Machine
  import opened Counting
  import opened Degree
  import opened Instances
  import opened Sketches

  ghost function RowIndices(rows: Relation, attribute: AttributeId): set<nat> {
    set r | r in Below(|rows|) && attribute in rows[r]
  }

  ghost function ValueAt(rows: Relation, attribute: AttributeId): nat -> Value {
    (r: nat) => if r < |rows| && attribute in rows[r] then rows[r][attribute] else 0
  }

  ghost function DistinctValues(rows: Relation, attribute: AttributeId): set<Value> {
    set r | r in RowIndices(rows, attribute) :: ValueAt(rows, attribute)(r)
  }

  /** Each value other than the given one needs a row of its own. */
  lemma Pigeonhole(rows: Relation, attribute: AttributeId, value: Value)
    ensures |RowsWith(rows, attribute, value)| + |DistinctValues(rows, attribute) - {value}| <= |rows|
  {
    var same, all := RowsWith(rows, attribute, value), RowIndices(rows, attribute);
    var rest, others := all - same, DistinctValues(rows, attribute) - {value};
    var f := ValueAt(rows, attribute);
    forall x | x in others ensures 1 <= |Fibre(rest, f, x)| <= |rest| {
      var r :| r in all && f(r) == x;
      assert r in Fibre(rest, f, x);
      SubsetCount({r}, Fibre(rest, f, x));
      SubsetCount(Fibre(rest, f, x), rest);
    }
    FibreBounds(rest, others, f, 1, |rest|);
    assert same + rest == all;
    BoundedCount(all, |rows|);
  }

  /** A distinct-count floor gives a sound degree bound. */
  lemma FromDistinctSound(rows: Relation, attribute: AttributeId, value: Value, rowCount: u64, distinct: u64)
    requires |rows| <= rowCount && distinct <= |DistinctValues(rows, attribute)|
    ensures |RowsWith(rows, attribute, value)| <= FromDistinct(rowCount, distinct).maxDegree
  {
    Pigeonhole(rows, attribute, value);
    var all, others := DistinctValues(rows, attribute), DistinctValues(rows, attribute) - {value};
    SubsetCount(all, others + {value});
  }

  /** The relation that spends one row on each distinct value and piles the rest on value 0. */
  ghost function Piled(rowCount: nat, distinct: nat, attribute: AttributeId): Relation {
    seq(rowCount, i => map[attribute := if i < distinct then i else 0])
  }

  lemma PiledValues(rowCount: nat, distinct: nat, attribute: AttributeId)
    requires 1 <= distinct <= rowCount
    ensures |DistinctValues(Piled(rowCount, distinct, attribute), attribute)| == distinct
  {
    var rows := Piled(rowCount, distinct, attribute);
    var values := DistinctValues(rows, attribute);
    var asNat := (v: Value) => if v < 0 then 0 else v;
    forall r | r in RowIndices(rows, attribute) ensures 0 <= ValueAt(rows, attribute)(r) < distinct {
    }
    forall i | i in Below(distinct) ensures exists v :: v in values && asNat(v) == i {
      var v: Value := i;
      assert i in RowIndices(rows, attribute) && ValueAt(rows, attribute)(i) == v;
      assert v in values && asNat(v) == i;
    }
    InjectionCount(values, Below(distinct), asNat);
    BelowCount(distinct);
  }

  lemma PiledRows(rowCount: nat, distinct: nat, attribute: AttributeId)
    requires 1 <= distinct <= rowCount
    ensures |RowsWith(Piled(rowCount, distinct, attribute), attribute, 0)| == rowCount - distinct + 1
  {
    var rows := Piled(rowCount, distinct, attribute);
    var piled, spread := RowsWith(rows, attribute, 0), Below(distinct) - {0};
    forall r: nat | r < rowCount ensures r in piled <==> r !in spread {
      assert rows[r] == map[attribute := if r < distinct then r else 0];
    }
    assert piled == Below(rowCount) - spread && spread <= Below(rowCount);
    BelowCount(rowCount);
    BelowCount(distinct);
    assert |spread| == distinct - 1;
  }

  /** The bound is the best possible: some relation with exactly that many values attains it. */
  lemma FromDistinctTight(rowCount: u64, distinct: u64, attribute: AttributeId)
    requires 1 <= distinct <= rowCount
    ensures exists rows: Relation, value ::
              |rows| == rowCount && |DistinctValues(rows, attribute)| == distinct &&
              |RowsWith(rows, attribute, value)| == FromDistinct(rowCount, distinct).maxDegree
  {
    var rows := Piled(rowCount, distinct, attribute);
    PiledValues(rowCount, distinct, attribute);
    PiledRows(rowCount, distinct, attribute);
    assert |RowsWith(rows, attribute, 0)| == FromDistinct(rowCount, distinct).maxDegree;
  }

  /** A frequency ceiling, capped at the row count, stays sound. */
  lemma FromUpperBoundSound(rows: Relation, attribute: AttributeId, value: Value, rowCount: u64, frequency: u64)
    requires |rows| <= rowCount && |RowsWith(rows, attribute, value)| <= frequency
    ensures |RowsWith(rows, attribute, value)| <= FromUpperBound(rowCount, frequency).maxDegree
  {
    BoundedCount(RowsWith(rows, attribute, value), |rows|);
  }

  /** The relation whose first rows all carry 0 and whose other rows carry nothing. */
  ghost function OneValue(rowCount: nat, carrying: nat, attribute: AttributeId): Relation {
    seq(rowCount, i => if i < carrying then map[attribute := 0] else map[])
  }

  /** The capped ceiling is the best possible too: some relation within it attains it. */
  lemma FromUpperBoundTight(rowCount: u64, frequency: u64, attribute: AttributeId)
    ensures exists rows: Relation, value ::
              && |rows| == rowCount && (forall other :: |RowsWith(rows, attribute, other)| <= frequency)
              && |RowsWith(rows, attribute, value)| == FromUpperBound(rowCount, frequency).maxDegree
  {
    var n := Min(frequency, rowCount);
    var rows := OneValue(rowCount, n, attribute);
    BelowCount(n);
    forall value: Value ensures RowsWith(rows, attribute, value) == if value == 0 then Below(n) else {} {
      assert forall r: nat | r < rowCount :: rows[r] == if r < n then map[attribute := 0] else map[];
    }
    assert |RowsWith(rows, attribute, 0)| == FromUpperBound(rowCount, frequency).maxDegree;
  }

  // Sketches of a join column.

  /** The values of a column as a sketch is given them: in row order, encoded, NULLs left out. */
  ghost function ColumnItems(rows: Relation, attribute: AttributeId, encode: Value -> Item): seq<Item> {
    if rows == [] then []
    else
      var last := rows[|rows| - 1];
      ColumnItems(rows[..|rows| - 1], attribute, encode) +
      if attribute in last then [encode(last[attribute])] else []
  }

  ghost function CountedOnce(items: seq<Item>): (history: seq<Addition>)
    ensures |history| == |items|
  {
    seq(|items|, i requires 0 <= i < |items| => Addition(items[i], 1))
  }

  /** Each row that carries the value adds its encoding once. */
  lemma {:induction false} FrequencyOfValue(rows: Relation, attribute: AttributeId, encode: Value -> Item, value: Value)
    ensures |RowsWith(rows, attribute, value)| <=
            Frequency(CountedOnce(ColumnItems(rows, attribute, encode)), encode(value))
  {
    if rows != [] {
      var n := |rows| - 1;
      var before, last := rows[..n], rows[n];
      FrequencyOfValue(before, attribute, encode, value);
      LastRow(rows, attribute, value);
      var items := ColumnItems(before, attribute, encode);
      if attribute in last {
        FrequencyOfOneMore(items, encode(last[attribute]), encode(value));
      } else {
        assert ColumnItems(rows, attribute, encode) == items;
      }
    }
  }

  lemma LastRow(rows: Relation, attribute: AttributeId, value: Value)
    requires rows != []
    ensures var n := |rows| - 1;
            |RowsWith(rows, attribute, value)| ==
            |RowsWith(rows[..n], attribute, value)| + if attribute in rows[n] && rows[n][attribute] == value then 1 else 0
  {
    var n, same := |rows| - 1, RowsWith(rows, attribute, value);
    assert same - {n} == RowsWith(rows[..n], attribute, value);
    assert n in same <==> attribute in rows[n] && rows[n][attribute] == value;
  }

  lemma FrequencyOfOneMore(items: seq<Item>, item: Item, counted: Item)
    ensures Frequency(CountedOnce(items + [item]), counted) ==
            Frequency(CountedOnce(items), counted) + if item == counted then 1 else 0
  {
    assert CountedOnce(items + [item])[..|items|] == CountedOnce(items);
  }

  lemma {:induction false} ItemsAreValues(rows: Relation, attribute: AttributeId, encode: Value -> Item, item: Item)
    requires item in ColumnItems(rows, attribute, encode)
    ensures exists value :: value in DistinctValues(rows, attribute) && encode(value) == item
  {
    var n := |rows| - 1;
    var before, last := rows[..n], rows[n];
    if item in ColumnItems(before, attribute, encode) {
      ItemsAreValues(before, attribute, encode, item);
      var value :| value in DistinctValues(before, attribute) && encode(value) == item;
      var r :| r in RowIndices(before, attribute) && ValueAt(before, attribute)(r) == value;
      assert r in RowIndices(rows, attribute) && ValueAt(rows, attribute)(r) == value;
    } else {
      assert n in RowIndices(rows, attribute) && ValueAt(rows, attribute)(n) == last[attribute];
    }
  }

  /** Encoding does not make values distinct that are equal. */
  lemma DistinctOfColumn(rows: Relation, attribute: AttributeId, encode: Value -> Item)
    ensures |DistinctItems(ColumnItems(rows, attribute, encode))| <= |DistinctValues(rows, attribute)|
  {
    var items, values := DistinctItems(ColumnItems(rows, attribute, encode)), DistinctValues(rows, attribute);
    var used := set v | v in values && encode(v) in items;
    forall x | x in items ensures 1 <= |Fibre(used, encode, x)| <= |used| {
      ItemsAreValues(rows, attribute, encode, x);
      var value :| value in values && encode(value) == x;
      assert value in Fibre(used, encode, x);
      SubsetCount({value}, Fibre(used, encode, x));
      SubsetCount(Fibre(used, encode, x), used);
    }
    FibreBounds(used, items, encode, 1, |used|);
    SubsetCount(used, values);
  }

  /**
    The degree taken from a Count-Min sketch of a join column bounds how often each of its
    values occurs, whatever the hash function and the encoding, and falls back to the row
    count once a counter is full.
   */
  method DegreeFromCountMin(rowCount: u64, sketch: CountMinSketch) returns (degree: AttributeDegree)
    requires sketch.Valid()
    ensures sketch.HasFullCounter() ==> degree.maxDegree == rowCount
    ensures !sketch.HasFullCounter() ==> exists load: nat :: sketch.IsLargestLoad(load) && degree.maxDegree == Min(load, rowCount)
    ensures forall rows: Relation, attribute, encode, value |
              |rows| <= rowCount && sketch.history == CountedOnce(ColumnItems(rows, attribute, encode)) ::
              |RowsWith(rows, attribute, value)| <= degree.maxDegree
  {
    var bound := sketch.MaxFrequencyBound();
    degree := FromCountMin(rowCount, bound);
    forall rows: Relation, attribute, encode, value |
      |rows| <= rowCount && sketch.history == CountedOnce(ColumnItems(rows, attribute, encode))
      ensures |RowsWith(rows, attribute, value)| <= degree.maxDegree
    {
      FrequencyOfValue(rows, attribute, encode, value);
      BoundedCount(RowsWith(rows, attribute, value), |rows|);
    }
  }

  /** The same for the non-zero registers of a HyperLogLog sketch of the column. */
  method DegreeFromHllFloor(rowCount: u64, sketch: HllSketch) returns (degree: AttributeDegree)
    requires sketch.Valid()
    ensures var n := |Occupied(sketch.hash, sketch.precision, sketch.items, Pow2(sketch.precision))|;
            degree.maxDegree == if 0 < n <= rowCount then rowCount - n + 1 else rowCount
    ensures forall rows: Relation, attribute, encode, value |
              |rows| <= rowCount && sketch.items == ColumnItems(rows, attribute, encode) ::
              |RowsWith(rows, attribute, value)| <= degree.maxDegree
  {
    var registers := sketch.NonzeroRegisters();
    PrecisionBound(sketch.precision);
    degree := FromHllFloor(rowCount, registers);
    forall rows: Relation, attribute, encode, value |
      |rows| <= rowCount && sketch.items == ColumnItems(rows, attribute, encode)
      ensures |RowsWith(rows, attribute, value)| <= degree.maxDegree
    {
      DistinctOfColumn(rows, attribute, encode);
      FromDistinctSound(rows, attribute, value, rowCount, registers);
    }
  }

  lemma PrecisionBound(precision: nat)
    requires precision <= 18
    ensures Pow2(precision) <= 262144
  {
    PowersGrow(precision, 18);
    assert Pow2(9) == 512;
    PowersMultiply(9, 9);
  }
}
