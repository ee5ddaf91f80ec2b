/** Validating and decoding the portable sketches of a table snapshot (`samkhya-core/src/portable.rs`). */
module Portable {
  import opened Machine

  type Bytes = seq<nat>

  /** The two kinds with a typed projection, and all others, which are skipped. */
  datatype Kind = Hll | EquiDepth | OtherKind(name: string)

  datatype SketchBlob = SketchBlob(kind: Kind, fields: seq<int>, payload: Bytes)

  /** Sketches are what their decoders return; an HLL also has a distinct-count estimate. */
  type Sketch = nat
  datatype Decoders = Decoders(hll: Bytes -> Option<Sketch>, histogram: Bytes -> Option<Sketch>, estimate: Sketch -> nat)

  datatype SnapshotError = WrongFieldCount | NegativeField | Duplicate | Corrupt

  datatype Result<T> = Ok(value: T) | Err(error: SnapshotError)

  datatype ColumnStats = ColumnStats(fieldId: int, distinctCount: Option<nat>, hll: Option<Sketch>, histogram: Option<Sketch>)

  predicate Supported(kind: Kind) {
    !kind.OtherKind?
  }

  function DecodePayload(d: Decoders, blob: SketchBlob): Option<Sketch>
    requires Supported(blob.kind)
  {
    if blob.kind.Hll? then d.hll(blob.payload) else d.histogram(blob.payload)
  }

  ghost predicate WellFormed(d: Decoders, blob: SketchBlob) {
    blob.kind == Hll || blob.kind == EquiDepth ==>
      && |blob.fields| == 1 && blob.fields[0] >= 0
      && (blob.kind == Hll ==> d.hll(blob.payload).Some?)
      && (blob.kind == EquiDepth ==> d.histogram(blob.payload).Some?)
  }

  ghost predicate Clash(a: SketchBlob, b: SketchBlob) {
    (a.kind == Hll || a.kind == EquiDepth) && a.kind == b.kind && a.fields == b.fields
  }

  /** Every supported blob is well formed, and no two are for the same field and kind. */
  ghost predicate ValidSnapshot(d: Decoders, blobs: seq<SketchBlob>) {
    && (forall i | 0 <= i < |blobs| :: WellFormed(d, blobs[i]))
    && (forall i, j | 0 <= i < j < |blobs| :: !Clash(blobs[i], blobs[j]))
  }

  /** What is wrong with blob i, looking at its fields, at the blobs before it, and at its payload, in this order. */
  ghost function DefectAt(d: Decoders, blobs: seq<SketchBlob>, i: nat): Option<SnapshotError>
    requires i < |blobs|
  {
    var blob := blobs[i];
    if !Supported(blob.kind) then None
    else if |blob.fields| != 1 then Some(WrongFieldCount)
    else if blob.fields[0] < 0 then Some(NegativeField)
    else if exists k :: 0 <= k < i && Clash(blobs[k], blob) then Some(Duplicate)
    else if DecodePayload(d, blob).None? then Some(Corrupt)
    else None
  }

  /** The defect of the first blob that has one, or none if no blob has any. */
  ghost predicate IsFirstDefect(d: Decoders, blobs: seq<SketchBlob>, error: Option<SnapshotError>) {
    if error.None? then forall i: nat | i < |blobs| :: DefectAt(d, blobs, i).None?
    else exists i: nat :: i < |blobs| && DefectAt(d, blobs, i) == error &&
                          forall k: nat | k < i :: DefectAt(d, blobs, k).None?
  }

  /** Looking at the blobs one by one, each only against earlier ones, decides validity as a whole. */
  lemma ValidIffNoDefect(d: Decoders, blobs: seq<SketchBlob>)
    ensures ValidSnapshot(d, blobs) <==> IsFirstDefect(d, blobs, None)
  {
    if ValidSnapshot(d, blobs) {
      forall i: nat | i < |blobs| ensures DefectAt(d, blobs, i).None? {
        assert WellFormed(d, blobs[i]);
      }
    }
    if IsFirstDefect(d, blobs, None) {
      forall i: nat | i < |blobs| ensures WellFormed(d, blobs[i]) {
        assert DefectAt(d, blobs, i).None?;
      }
      forall i: nat, j: nat | i < j < |blobs| ensures !Clash(blobs[i], blobs[j]) {
        assert DefectAt(d, blobs, j).None?;
      }
    }
  }

  method Validate(d: Decoders, blobs: seq<SketchBlob>) returns (error: Option<SnapshotError>)
    ensures IsFirstDefect(d, blobs, error)
    ensures error.None? <==> ValidSnapshot(d, blobs)
  {
    var seen: set<(int, Kind)> := {};
    ValidIffNoDefect(d, blobs);
    for i := 0 to |blobs|
      invariant forall k: nat | k < i :: DefectAt(d, blobs, k).None?
      invariant forall k | 0 <= k < i && Supported(blobs[k].kind) ::
                  |blobs[k].fields| == 1 && (blobs[k].fields[0], blobs[k].kind) in seen
      invariant forall s | s in seen ::
                  exists k :: 0 <= k < i && Supported(blobs[k].kind) && blobs[k].fields == [s.0] && blobs[k].kind == s.1
    {
      var blob := blobs[i];
      if !Supported(blob.kind) {
        continue;
      }
      if |blob.fields| != 1 {
        assert DefectAt(d, blobs, i) == Some(WrongFieldCount);
        return Some(WrongFieldCount);
      }
      var fieldId := blob.fields[0];
      if fieldId < 0 {
        assert DefectAt(d, blobs, i) == Some(NegativeField);
        return Some(NegativeField);
      }
      assert blob.fields == [fieldId];
      if (fieldId, blob.kind) in seen {
        ghost var k :| 0 <= k < i && Supported(blobs[k].kind) && blobs[k].fields == [fieldId] && blobs[k].kind == blob.kind;
        assert Clash(blobs[k], blobs[i]);
        assert DefectAt(d, blobs, i) == Some(Duplicate);
        return Some(Duplicate);
      }
      seen := seen + {(fieldId, blob.kind)};
      if DecodePayload(d, blob).None? {
        assert DefectAt(d, blobs, i) == Some(Corrupt);
        return Some(Corrupt);
      }
    }
    error := None;
  }

  /** The decoded sketch of one kind for one field, if such a blob exists; any such blob gives it. */
  ghost predicate IsSketchOf(decode: Bytes -> Option<Sketch>, blobs: seq<SketchBlob>, field: int, kind: Kind,
                             sketch: Option<Sketch>) {
    && (sketch.Some? <==> exists b :: b in blobs && b.kind == kind && b.fields == [field])
    && (forall b | b in blobs && b.kind == kind && b.fields == [field] :: decode(b.payload) == sketch)
  }

  ghost predicate IsDecoded(d: Decoders, blobs: seq<SketchBlob>, field: int, column: Option<ColumnStats>) {
    var hll := if column.Some? then column.value.hll else None;
    var histogram := if column.Some? then column.value.histogram else None;
    && IsSketchOf(d.hll, blobs, field, Hll, hll) && IsSketchOf(d.histogram, blobs, field, EquiDepth, histogram)
    && (column.Some? ==>
          && column.value.fieldId == field && (hll.Some? || histogram.Some?)
          && column.value.distinctCount == if hll.Some? then Some(d.estimate(hll.value)) else None)
  }

  /** One more blob looked at: it is the sketch if it is for the field and of the kind. */
  lemma SketchStep(d: Decoders, decode: Bytes -> Option<Sketch>, blobs: seq<SketchBlob>, i: nat, field: int, kind: Kind,
                   before: Option<Sketch>, after: Option<Sketch>)
    requires (kind == Hll && decode == d.hll) || (kind == EquiDepth && decode == d.histogram)
    requires i < |blobs| && ValidSnapshot(d, blobs)
    requires IsSketchOf(decode, blobs[..i], field, kind, before)
    requires after == if blobs[i].fields == [field] && blobs[i].kind == kind then decode(blobs[i].payload) else before
    ensures IsSketchOf(decode, blobs[..i + 1], field, kind, after)
  {
    var done := blobs[..i];
    assert blobs[..i + 1] == done + [blobs[i]];
    assert forall b :: b in blobs[..i + 1] <==> b in done || b == blobs[i];
    assert WellFormed(d, blobs[i]);
    if blobs[i].fields == [field] && blobs[i].kind == kind {
      forall k | 0 <= k < i ensures !(done[k].kind == kind && done[k].fields == [field]) {
        assert !Clash(blobs[k], blobs[i]);
      }
      assert blobs[i] in blobs[..i + 1];
    }
  }

  /** Later blobs overwrite earlier ones here, which validation has made harmless. */
  method DecodeColumn(d: Decoders, blobs: seq<SketchBlob>, field: int) returns (column: Result<Option<ColumnStats>>)
    ensures field < 0 ==> column == Err(NegativeField)
    ensures field >= 0 ==> IsFirstDefect(d, blobs, if column.Err? then Some(column.error) else None)
    ensures column.Ok? <==> field >= 0 && ValidSnapshot(d, blobs)
    ensures column.Ok? ==> IsDecoded(d, blobs, field, column.value)
  {
    if field < 0 {
      return Err(NegativeField);
    }
    var invalid := Validate(d, blobs);
    if invalid.Some? {
      return Err(invalid.value);
    }
    var hll, histogram: Option<Sketch> := None, None;
    for i := 0 to |blobs|
      invariant IsSketchOf(d.hll, blobs[..i], field, Hll, hll)
      invariant IsSketchOf(d.histogram, blobs[..i], field, EquiDepth, histogram)
    {
      ghost var hll0, histogram0 := hll, histogram;
      if blobs[i].fields == [field] {
        match blobs[i].kind {
          case Hll => hll := d.hll(blobs[i].payload);
          case EquiDepth => histogram := d.histogram(blobs[i].payload);
          case OtherKind(_) =>
        }
      }
      SketchStep(d, d.hll, blobs, i, field, Hll, hll0, hll);
      SketchStep(d, d.histogram, blobs, i, field, EquiDepth, histogram0, histogram);
    }
    assert blobs[..|blobs|] == blobs;
    if hll.None? && histogram.None? {
      return Ok(None);
    }
    var distinct := if hll.Some? then Some(d.estimate(hll.value)) else None;
    column := Ok(Some(ColumnStats(field, distinct, hll, histogram)));
  }

  /** Whatever order the blobs come in, the decoded column is the same. */
  lemma OrderIsIrrelevant(d: Decoders, blobs: seq<SketchBlob>, blobs': seq<SketchBlob>, field: int,
                          column: Option<ColumnStats>, column': Option<ColumnStats>)
    requires forall b :: b in blobs <==> b in blobs'
    requires IsDecoded(d, blobs, field, column) && IsDecoded(d, blobs', field, column')
    ensures column == column'
  {
  }
}
