/** Puffin sidecar files: the format, its writer and its reader (`samkhya-core/src/puffin.rs`). */
module Puffin {
  import opened Machine

  type byte = x: int | 0 <= x < 256
  type Bytes = seq<byte>

  const MAGIC: Bytes := [0x50, 0x46, 0x41, 0x31]
  const MAX_BLOB_LEN: nat := 2 * 1024 * 1024 * 1024
  const MAX_FOOTER_LEN: nat := 16 * 1024 * 1024
  const MAX_BLOB_COUNT: nat := 65536

  datatype BlobMetadata = BlobMetadata(
    kind: string,
    fields: seq<int>,
    snapshotId: Option<int>,
    sequenceNumber: Option<int>,
    offset: u64,
    length: u64,
    compressionCodec: Option<string>,
    properties: map<string, string>)

  datatype FooterPayload = FooterPayload(blobs: seq<BlobMetadata>, properties: map<string, string>)

  datatype Blob = Blob(kind: string, fields: seq<int>, payload: Bytes, properties: map<string, string>)

  /** Whatever serialises the footer: decoding need only undo encoding. */
  datatype Codec = Codec(encode: FooterPayload -> Bytes, decode: Bytes -> Option<FooterPayload>) {
    ghost predicate Faithful() {
      forall f :: decode(encode(f)) == Some(f)
    }
  }

  datatype PuffinError =
    | FileTooShort | TrailingMagicMissing | UnsupportedFlags | FooterTooLong | FooterOutsideFile
    | FooterMagicMissing | HeadMagicMissing | FooterUndecodable | TooManyBlobs | FooterExceedsU32
    | IndexOutOfRange | BlobTooLong | OffsetOverflow | BlobOutsideRegion

  datatype Result<T> = Ok(value: T) | Err(error: PuffinError)

  // Little-endian 32-bit integers.

  function Le32(x: u32): (b: Bytes)
    ensures |b| == 4
  {
    [x % 256, x / 256 % 256, x / 256 / 256 % 256, x / 256 / 256 / 256]
  }

  function FromLe32(b: Bytes): u32
    requires |b| == 4
  {
    b[0] as int + 256 * b[1] as int + 65536 * b[2] as int + 16777216 * b[3] as int
  }

  lemma Le32RoundTrip(x: u32)
    ensures FromLe32(Le32(x)) == x
  {
  }

  // File layout.

  /** The payloads, one after the other. */
  function Concat(payloads: seq<Bytes>): Bytes {
    if payloads == [] then [] else Concat(payloads[..|payloads| - 1]) + payloads[|payloads| - 1]
  }

  function FooterBytes(encoded: Bytes): Bytes
    requires |encoded| < U32_SPAN
  {
    MAGIC + encoded + Le32(|encoded|) + Le32(0) + MAGIC
  }

  /** The footer written piece by piece. */
  lemma AppendFooter(start: Bytes, encoded: Bytes)
    requires |encoded| < U32_SPAN
    ensures start + MAGIC + encoded + Le32(|encoded|) + Le32(0) + MAGIC == start + FooterBytes(encoded)
  {
  }

  /** A complete file: head magic, blobs, footer. */
  function FileBytes(payloads: seq<Bytes>, encoded: Bytes): Bytes
    requires |encoded| < U32_SPAN
  {
    MAGIC + Concat(payloads) + FooterBytes(encoded)
  }

  /** Each blob's recorded range starts where the one before ended, the first right after the head magic. */
  ghost predicate Tiles(blobs: seq<BlobMetadata>, payloads: seq<Bytes>) {
    && |blobs| == |payloads|
    && forall i | 0 <= i < |blobs| ::
         blobs[i].offset == |MAGIC| + |Concat(payloads[..i])| && blobs[i].length == |payloads[i]|
  }

  lemma ConcatPush(payloads: seq<Bytes>, p: Bytes)
    ensures Concat(payloads + [p]) == Concat(payloads) + p
  {
  }

  lemma AppendPayload(payloads: seq<Bytes>, p: Bytes)
    ensures MAGIC + Concat(payloads) + p == MAGIC + Concat(payloads + [p])
  {
  }

  lemma TilesPush(blobs: seq<BlobMetadata>, payloads: seq<Bytes>, meta: BlobMetadata, p: Bytes)
    requires Tiles(blobs, payloads)
    requires meta.offset == |MAGIC| + |Concat(payloads)| && meta.length == |p|
    ensures Tiles(blobs + [meta], payloads + [p])
  {
    assert forall i | 0 <= i <= |payloads| :: (payloads + [p])[..i] == payloads[..i];
  }

  /** Payload i sits at its offset in the concatenation. */
  lemma {:induction false} ConcatSlice(payloads: seq<Bytes>, i: nat)
    requires i < |payloads|
    ensures |Concat(payloads[..i])| + |payloads[i]| <= |Concat(payloads)|
    ensures Concat(payloads)[|Concat(payloads[..i])|..|Concat(payloads[..i])| + |payloads[i]|] == payloads[i]
    decreases |payloads|
  {
    var rest := payloads[..|payloads| - 1];
    if i < |rest| {
      ConcatSlice(rest, i);
      assert rest[..i] == payloads[..i];
      SliceOfPrefix(Concat(rest), payloads[|rest|], |Concat(payloads[..i])|, |payloads[i]|);
    }
  }

  lemma SliceOfPrefix(a: Bytes, b: Bytes, at: nat, len: nat)
    requires at + len <= |a|
    ensures (a + b)[at..at + len] == a[at..at + len]
  {
  }

  lemma SliceOfSlice(data: Bytes, from: nat, n: nat, at: nat, len: nat)
    requires from + n <= |data| && at + len <= n
    ensures data[from + at..from + at + len] == data[from..from + n][at..at + len]
  {
    var part := data[from..from + n];
    var direct, nested := data[from + at..from + at + len], part[at..at + len];
    forall i | 0 <= i < len ensures direct[i] == nested[i] {
      assert part[at + i] == data[from + (at + i)];
    }
  }

  lemma TileEnds(payloads: seq<Bytes>, i: nat)
    requires i < |payloads|
    ensures |Concat(payloads[..i + 1])| == |Concat(payloads[..i])| + |payloads[i]|
  {
    assert payloads[..i + 1] == payloads[..i] + [payloads[i]];
    ConcatPush(payloads[..i], payloads[i]);
  }

  lemma {:induction false} ConcatGrows(payloads: seq<Bytes>, i: nat, j: nat)
    requires i <= j <= |payloads|
    ensures |Concat(payloads[..i])| <= |Concat(payloads[..j])|
    decreases j
  {
    if i < j {
      ConcatGrows(payloads, i, j - 1);
      TileEnds(payloads, j - 1);
    }
  }

  /** Where the range after blob i starts: the next blob's, or the footer. */
  ghost function NextStart(blobs: seq<BlobMetadata>, payloads: seq<Bytes>, i: nat): nat
    requires i < |blobs|
  {
    if i + 1 < |blobs| then blobs[i + 1].offset else |MAGIC| + |Concat(payloads)|
  }

  /** The ranges are in order, pairwise disjoint, and leave no gap from the head magic up to the footer. */
  lemma TilesAreDisjoint(blobs: seq<BlobMetadata>, payloads: seq<Bytes>)
    requires Tiles(blobs, payloads)
    ensures blobs != [] ==> blobs[0].offset == |MAGIC|
    ensures forall i, j | 0 <= i < j < |blobs| :: blobs[i].offset + blobs[i].length <= blobs[j].offset
    ensures forall i: nat | i < |blobs| :: blobs[i].offset + blobs[i].length == NextStart(blobs, payloads, i)
  {
    forall i: nat | i < |blobs| ensures blobs[i].offset + blobs[i].length == NextStart(blobs, payloads, i) {
      TileEnds(payloads, i);
      assert i + 1 == |blobs| ==> payloads[..i + 1] == payloads;
    }
    forall i, j | 0 <= i < j < |blobs| ensures blobs[i].offset + blobs[i].length <= blobs[j].offset {
      TileEnds(payloads, i);
      ConcatGrows(payloads, i + 1, j);
    }
  }

  // The writer.

  const SCHEMA_VERSION_PROPERTY: string := "samkhya.schema-version"
  const SCHEMA_VERSION: string := "1"

  /** What every file says about itself. */
  function StandardProperties(version: string): map<string, string> {
    map["created-by" := "samkhya-core version " + version, SCHEMA_VERSION_PROPERTY := SCHEMA_VERSION]
  }

  lemma TwoProperties(version: string)
    ensures StandardProperties(version).Keys == {"created-by", "samkhya.schema-version"}
    ensures StandardProperties(version)["created-by"] == "samkhya-core version " + version
    ensures StandardProperties(version)["samkhya.schema-version"] == "1"
  {
    assert "created-by"[0] != SCHEMA_VERSION_PROPERTY[0];
  }

  /** What has been written: nothing yet, or the head magic and the payloads, with a range recorded for each. */
  ghost predicate IsWritten(inner: Bytes, pos: u64, wroteHead: bool, blobs: seq<BlobMetadata>, payloads: seq<Bytes>) {
    && pos == |inner|
    && inner == (if wroteHead then MAGIC + Concat(payloads) else [])
    && (!wroteHead ==> payloads == [])
    && Tiles(blobs, payloads)
  }

  lemma WriteOneMore(inner: Bytes, pos: u64, blobs: seq<BlobMetadata>, payloads: seq<Bytes>, meta: BlobMetadata, p: Bytes)
    requires IsWritten(inner, pos, true, blobs, payloads) && pos + |p| <= U64_MAX
    requires meta.offset == pos && meta.length == |p|
    ensures pos == |MAGIC| + |Concat(payloads)|
    ensures IsWritten(inner + p, pos + |p|, true, blobs + [meta], payloads + [p])
  {
    AppendPayload(payloads, p);
    TilesPush(blobs, payloads, meta, p);
  }

  class PuffinWriter {
    const codec: Codec
    var inner: Bytes
    var blobs: seq<BlobMetadata>
    var properties: map<string, string>
    var pos: u64
    var wroteHead: bool
    /** The payloads added so far. */
    ghost var payloads: seq<Bytes>

    ghost predicate Valid()
      reads this
    {
      IsWritten(inner, pos, wroteHead, blobs, payloads)
    }

    constructor (codec: Codec, version: string)
      ensures Valid() && this.codec == codec && payloads == [] && blobs == [] && !wroteHead
      ensures properties == StandardProperties(version)
    {
      this.codec := codec;
      inner, blobs, pos, wroteHead, payloads := [], [], 0, false, [];
      properties := StandardProperties(version);
    }

    method SetFileProperty(key: string, value: string)
      requires Valid()
      modifies this`properties
      ensures Valid() && properties == old(properties)[key := value]
    {
      properties := properties[key := value];
    }

    method EnsureHead()
      requires Valid()
      modifies this`inner, this`pos, this`wroteHead
      ensures Valid() && wroteHead
    {
      if !wroteHead {
        inner := inner + MAGIC;
        pos := pos + |MAGIC|;
        wroteHead := true;
        assert inner == MAGIC + Concat(payloads);
      }
    }

    /** Appends one blob; the file must stay below 2^64 bytes. */
    method AddBlobForSnapshot(blob: Blob, snapshotId: int, sequenceNumber: int)
      requires Valid() && |inner| + |MAGIC| + |blob.payload| <= U64_MAX
      modifies this`inner, this`pos, this`wroteHead, this`blobs, this`payloads
      ensures Valid() && wroteHead
      ensures payloads == old(payloads) + [blob.payload]
      ensures blobs == old(blobs) + [BlobMetadata(blob.kind, blob.fields, Some(snapshotId), Some(sequenceNumber),
                                                  |MAGIC| + |Concat(old(payloads))|, |blob.payload|, None,
                                                  blob.properties)]
    {
      EnsureHead();
      var offset := pos;
      ghost var before := inner;
      inner := inner + blob.payload;
      var length: u64 := |blob.payload|;
      pos := pos + length;
      var meta := BlobMetadata(blob.kind, blob.fields, Some(snapshotId), Some(sequenceNumber),
                               offset, length, None, blob.properties);
      WriteOneMore(before, offset, blobs, payloads, meta, blob.payload);
      blobs := blobs + [meta];
      payloads := payloads + [blob.payload];
    }

    /** With -1 for the snapshot and sequence number that are not known yet. */
    method AddBlob(blob: Blob)
      requires Valid() && |inner| + |MAGIC| + |blob.payload| <= U64_MAX
      modifies this`inner, this`pos, this`wroteHead, this`blobs, this`payloads
      ensures Valid() && wroteHead
      ensures payloads == old(payloads) + [blob.payload]
      ensures blobs == old(blobs) + [BlobMetadata(blob.kind, blob.fields, Some(-1), Some(-1),
                                                  |MAGIC| + |Concat(old(payloads))|, |blob.payload|, None,
                                                  blob.properties)]
    {
      AddBlobForSnapshot(blob, -1, -1);
    }

    /** Writes the footer; fails exactly when its length does not fit in 32 bits. */
    method Finish() returns (file: Result<Bytes>)
      requires Valid()
      modifies this`inner, this`pos, this`wroteHead
      ensures var encoded := codec.encode(FooterPayload(blobs, properties));
              file == if |encoded| < U32_SPAN then Ok(FileBytes(payloads, encoded)) else Err(FooterExceedsU32)
    {
      EnsureHead();
      var payload := codec.encode(FooterPayload(blobs, properties));
      if |payload| >= U32_SPAN {
        return Err(FooterExceedsU32);
      }
      ghost var start := inner;
      inner := inner + MAGIC;
      inner := inner + payload;
      inner := inner + Le32(|payload|);
      inner := inner + Le32(0);
      inner := inner + MAGIC;
      AppendFooter(start, payload);
      file := Ok(inner);
    }
  }

  // The reader.

  datatype PuffinReader = PuffinReader(inner: Bytes, footer: FooterPayload, blobDataEnd: u64)

  /** Bytes from..from + len counted back from the end of the data. */
  function Tail(data: Bytes, back: nat, len: nat): Bytes
    requires len <= back <= |data|
  {
    data[|data| - back..|data| - back + len]
  }

  function DeclaredLength(data: Bytes): u32
    requires |data| >= 20
  {
    FromLe32(Tail(data, 12, 4))
  }

  function DeclaredFooter(data: Bytes): Bytes
    requires |data| >= 20 && 16 + DeclaredLength(data) <= |data|
  {
    Tail(data, 12 + DeclaredLength(data), DeclaredLength(data))
  }

  /** The first thing wrong with the data, in the order the reader looks. */
  function Defect(data: Bytes, codec: Codec): Option<PuffinError> {
    if |data| < 20 then Some(FileTooShort)
    else if Tail(data, 4, 4) != MAGIC then Some(TrailingMagicMissing)
    else if Tail(data, 8, 4) != [0, 0, 0, 0] then Some(UnsupportedFlags)
    else if DeclaredLength(data) > MAX_FOOTER_LEN then Some(FooterTooLong)
    else if 16 + DeclaredLength(data) > |data| then Some(FooterOutsideFile)
    else if Tail(data, 16 + DeclaredLength(data), 4) != MAGIC then Some(FooterMagicMissing)
    else if data[..4] != MAGIC then Some(HeadMagicMissing)
    else
      var footer := codec.decode(DeclaredFooter(data));
      if footer.None? then Some(FooterUndecodable)
      else if |footer.value.blobs| > MAX_BLOB_COUNT then Some(TooManyBlobs)
      else None
  }

  /**
    The bytes from `at` on are a footer: magic, payload, the payload's length, zero flags, magic.
    The data begin with the magic too.
   */
  ghost predicate HasFooter(data: Bytes, at: nat) {
    exists payload :: |payload| <= 16 * 1024 * 1024 && IsFooterAt(data, at, payload)
  }

  ghost predicate IsFooterAt(data: Bytes, at: nat, payload: Bytes)
    requires |payload| <= 16 * 1024 * 1024
  {
    && at <= |data| && [0x50, 0x46, 0x41, 0x31] <= data
    && data[at..] == [0x50, 0x46, 0x41, 0x31] + payload + Le32(|payload|) + [0, 0, 0, 0] + [0x50, 0x46, 0x41, 0x31]
  }

  lemma NoDefectIsFooter(data: Bytes, codec: Codec)
    requires Defect(data, codec).None?
    ensures HasFooter(data, |data| - 16 - DeclaredLength(data))
  {
    var payload, n := DeclaredFooter(data), DeclaredLength(data);
    var at := |data| - 16 - n;
    Le32OfDecoded(Tail(data, 12, 4));
    SplitFive(data, at, n);
    assert data[..4] <= data;
    assert IsFooterAt(data, at, payload);
  }

  lemma Le32OfDecoded(b: Bytes)
    requires |b| == 4
    ensures Le32(FromLe32(b)) == b
  {
    var top: nat := b[3];
    var upper: nat := b[2] + 256 * top;
    var lower: nat := b[1] + 256 * upper;
    LastDigit(b[0], lower);
    LastDigit(b[1], upper);
    LastDigit(b[2], top);
    assert FromLe32(b) == b[0] + 256 * lower;
  }

  lemma LastDigit(digit: byte, rest: nat)
    ensures (digit + 256 * rest) % 256 == digit && (digit + 256 * rest) / 256 == rest
  {
  }

  lemma SplitFive(data: Bytes, at: nat, n: nat)
    requires at + 16 + n == |data|
    ensures data[at..] == Tail(data, 16 + n, 4) + Tail(data, 12 + n, n) + Tail(data, 12, 4) + Tail(data, 8, 4) + Tail(data, 4, 4)
  {
  }

  lemma ZeroLe32(b: Bytes)
    requires |b| == 4
    ensures FromLe32(b) == 0 <==> b == [0, 0, 0, 0]
  {
  }

  /** Opens any bytes: every subtraction stays within the file. */
  method Open(inner: Bytes, codec: Codec) returns (reader: Result<PuffinReader>)
    requires |inner| <= U64_MAX
    ensures reader.Err? <==> Defect(inner, codec).Some?
    ensures reader.Err? ==> reader.error == Defect(inner, codec).value
    ensures reader.Ok? ==>
              && reader.value.inner == inner
              && codec.decode(DeclaredFooter(inner)) == Some(reader.value.footer)
              && reader.value.blobDataEnd == |inner| - 16 - DeclaredLength(inner)
    ensures reader.Ok? ==> HasFooter(inner, reader.value.blobDataEnd)
  {
    var fileLen: u64 := |inner|;
    if fileLen < 20 {
      return Err(FileTooShort);
    }
    var trailing := Tail(inner, 4, 4);
    if trailing != MAGIC {
      return Err(TrailingMagicMissing);
    }
    ZeroLe32(Tail(inner, 8, 4));
    var flags: u32 := FromLe32(Tail(inner, 8, 4));
    if flags != 0 {
      return Err(UnsupportedFlags);
    }
    var payloadLen: u64 := FromLe32(Tail(inner, 12, 4));
    if payloadLen > MAX_FOOTER_LEN {
      return Err(FooterTooLong);
    }
    var footerTotal: u64 := 16 + payloadLen;
    if fileLen < footerTotal {
      return Err(FooterOutsideFile);
    }
    var payloadStart: u64 := fileLen - 12 - payloadLen;
    var payload := Tail(inner, 12 + payloadLen, payloadLen);
    var footerHead := Tail(inner, 16 + payloadLen, 4);
    if footerHead != MAGIC {
      return Err(FooterMagicMissing);
    }
    var head := inner[..4];
    if head != MAGIC {
      return Err(HeadMagicMissing);
    }
    var footer := codec.decode(payload);
    if footer.None? {
      return Err(FooterUndecodable);
    }
    if |footer.value.blobs| > MAX_BLOB_COUNT {
      return Err(TooManyBlobs);
    }
    NoDefectIsFooter(inner, codec);
    reader := Ok(PuffinReader(inner, footer.value, payloadStart - 4));
  }

  /** What makes a recorded range readable. */
  ghost predicate Readable(meta: BlobMetadata, blobDataEnd: u64) {
    meta.length <= MAX_BLOB_LEN && |MAGIC| <= meta.offset && meta.offset + meta.length <= blobDataEnd
  }

  /**
    Reads one payload.  Whatever the footer claims, the result is an error or exactly
    the recorded range, and that range lies between the head magic and the footer.
   */
  method ReadBlob(reader: PuffinReader, idx: nat) returns (bytes: Result<Bytes>)
    requires reader.blobDataEnd <= |reader.inner|
    ensures bytes.Ok? <==>
              idx < |reader.footer.blobs| && Readable(reader.footer.blobs[idx], reader.blobDataEnd)
    ensures bytes.Ok? ==>
              var meta := reader.footer.blobs[idx];
              bytes.value == reader.inner[meta.offset..meta.offset + meta.length]
    ensures bytes.Err? ==> bytes.error in {IndexOutOfRange, BlobTooLong, OffsetOverflow, BlobOutsideRegion}
    ensures bytes == Err(IndexOutOfRange) <==> idx >= |reader.footer.blobs|
    ensures bytes == Err(BlobTooLong) <==>
              idx < |reader.footer.blobs| && reader.footer.blobs[idx].length > MAX_BLOB_LEN
    ensures bytes == Err(OffsetOverflow) <==>
              && idx < |reader.footer.blobs| && reader.footer.blobs[idx].length <= MAX_BLOB_LEN
              && reader.footer.blobs[idx].offset + reader.footer.blobs[idx].length > U64_MAX
  {
    if idx >= |reader.footer.blobs| {
      return Err(IndexOutOfRange);
    }
    var meta := reader.footer.blobs[idx];
    if meta.length > MAX_BLOB_LEN {
      return Err(BlobTooLong);
    }
    if meta.offset + meta.length > U64_MAX {
      return Err(OffsetOverflow);
    }
    var blobEnd: u64 := meta.offset + meta.length;
    if meta.offset < |MAGIC| || blobEnd > reader.blobDataEnd {
      return Err(BlobOutsideRegion);
    }
    bytes := Ok(reader.inner[meta.offset..meta.offset + meta.length]);
  }

  /** The first blob of a kind. */
  method FindBlob(reader: PuffinReader, kind: string) returns (found: Option<nat>)
    ensures found.None? <==> forall i | 0 <= i < |reader.footer.blobs| :: reader.footer.blobs[i].kind != kind
    ensures found.Some? ==>
              && found.value < |reader.footer.blobs| && reader.footer.blobs[found.value].kind == kind
              && forall i | 0 <= i < found.value :: reader.footer.blobs[i].kind != kind
  {
    for i := 0 to |reader.footer.blobs|
      invariant forall k | 0 <= k < i :: reader.footer.blobs[k].kind != kind
    {
      if reader.footer.blobs[i].kind == kind {
        return Some(i);
      }
    }
    found := None;
  }

  // Round trip.

  lemma FileTails(payloads: seq<Bytes>, encoded: Bytes)
    requires |encoded| < U32_SPAN
    ensures var data, n := FileBytes(payloads, encoded), |encoded|;
            && |data| == 20 + |Concat(payloads)| + n
            && Tail(data, 4, 4) == MAGIC && Tail(data, 8, 4) == [0, 0, 0, 0]
            && Tail(data, 12, 4) == Le32(n) && Tail(data, 12 + n, n) == encoded
            && Tail(data, 16 + n, 4) == MAGIC && data[..4] == MAGIC
            && data[4..4 + |Concat(payloads)|] == Concat(payloads)
  {
    FooterTails(MAGIC + Concat(payloads), encoded);
    FileHead(Concat(payloads), FooterBytes(encoded));
  }

  /** The pieces of a footer, counted back from the end of whatever it ends. */
  lemma FooterTails(start: Bytes, encoded: Bytes)
    requires |encoded| < U32_SPAN
    ensures var data, n := start + FooterBytes(encoded), |encoded|;
            && |data| == |start| + 16 + n
            && Tail(data, 4, 4) == MAGIC && Tail(data, 8, 4) == [0, 0, 0, 0]
            && Tail(data, 12, 4) == Le32(n) && Tail(data, 12 + n, n) == encoded
            && Tail(data, 16 + n, 4) == MAGIC
  {
    var data, n := start + FooterBytes(encoded), |encoded|;
    AppendFooter(start, encoded);
    assert Le32(0) == [0, 0, 0, 0];
    PieceAt(start, MAGIC, encoded + Le32(n) + Le32(0) + MAGIC);
    PieceAt(start + MAGIC, encoded, Le32(n) + Le32(0) + MAGIC);
    PieceAt(start + MAGIC + encoded, Le32(n), Le32(0) + MAGIC);
    PieceAt(start + MAGIC + encoded + Le32(n), Le32(0), MAGIC);
    PieceAt(start + MAGIC + encoded + Le32(n) + Le32(0), MAGIC, []);
  }

  lemma PieceAt(before: Bytes, piece: Bytes, after: Bytes)
    ensures (before + piece + after)[|before|..|before| + |piece|] == piece
  {
  }

  lemma FileHead(body: Bytes, footer: Bytes)
    ensures (MAGIC + body + footer)[..4] == MAGIC
    ensures (MAGIC + body + footer)[4..4 + |body|] == body
  {
    PieceAt(MAGIC, body, footer);
  }

  /**
    A finished file opens exactly when its footer is within the reader's limits, which the
    writer does not enforce; then the footer and the payload region come back unchanged.
   */
  lemma FinishedFileOpens(payloads: seq<Bytes>, footer: FooterPayload, codec: Codec)
    requires codec.Faithful() && |codec.encode(footer)| < U32_SPAN
    ensures var encoded := codec.encode(footer);
            var data := FileBytes(payloads, encoded);
            && (Defect(data, codec).None? <==>
                  |encoded| <= 0x100_0000 && |footer.blobs| <= 0x1_0000)
            && |data| >= 20 && DeclaredLength(data) == |encoded| && 16 + |encoded| <= |data|
            && codec.decode(DeclaredFooter(data)) == Some(footer)
            && |data| - 16 - |encoded| == |MAGIC| + |Concat(payloads)|
  {
    FileTails(payloads, codec.encode(footer));
    Le32RoundTrip(|codec.encode(footer)|);
  }

  /** Each tiled range of the file holds its payload, and is readable exactly when that is not too long. */
  lemma TiledRangeHoldsPayload(payloads: seq<Bytes>, blobs: seq<BlobMetadata>, encoded: Bytes, i: nat, end: u64)
    requires |encoded| < U32_SPAN && Tiles(blobs, payloads) && i < |blobs|
    requires end == |MAGIC| + |Concat(payloads)|
    ensures Readable(blobs[i], end) <==> |payloads[i]| <= 0x8000_0000
    ensures blobs[i].offset + blobs[i].length <= |FileBytes(payloads, encoded)|
    ensures FileBytes(payloads, encoded)[blobs[i].offset..blobs[i].offset + blobs[i].length] == payloads[i]
  {
    FileTails(payloads, encoded);
    ConcatSlice(payloads, i);
    SliceOfSlice(FileBytes(payloads, encoded), 4, |Concat(payloads)|, |Concat(payloads[..i])|, |payloads[i]|);
  }

  ghost function Payloads(input: seq<Blob>): (payloads: seq<Bytes>)
    ensures |payloads| == |input|
  {
    seq(|input|, i requires 0 <= i < |input| => input[i].payload)
  }

  /** The blobs' own metadata survives into the footer, uncompressed and for no particular snapshot. */
  ghost predicate Records(blobs: seq<BlobMetadata>, input: seq<Blob>) {
    && |blobs| == |input|
    && forall i | 0 <= i < |input| ::
         && blobs[i].kind == input[i].kind && blobs[i].fields == input[i].fields && blobs[i].properties == input[i].properties
         && blobs[i].snapshotId == blobs[i].sequenceNumber == Some(-1) && blobs[i].compressionCodec == None
  }

  lemma OneMorePayload(input: seq<Blob>, i: nat)
    requires i < |input|
    ensures Payloads(input[..i + 1]) == Payloads(input[..i]) + [input[i].payload]
    ensures |Concat(Payloads(input[..i]))| + |input[i].payload| <= |Concat(Payloads(input))|
  {
    ConcatSlice(Payloads(input), i);
    assert Payloads(input)[..i] == Payloads(input[..i]);
  }

  lemma OneMoreRecord(blobs: seq<BlobMetadata>, input: seq<Blob>, i: nat, meta: BlobMetadata)
    requires i < |input| && Records(blobs, input[..i]) && Records([meta], [input[i]])
    ensures Records(blobs + [meta], input[..i + 1])
  {
    assert input[..i + 1] == input[..i] + [input[i]];
  }

  method AddAll(w: PuffinWriter, input: seq<Blob>)
    requires w.Valid() && w.payloads == [] && |w.inner| <= |MAGIC|
    requires |Concat(Payloads(input))| + 2 * |MAGIC| <= U64_MAX
    modifies w`inner, w`pos, w`wroteHead, w`blobs, w`payloads
    ensures w.Valid() && w.payloads == Payloads(input) && Records(w.blobs, input)
  {
    for i := 0 to |input|
      invariant w.Valid() && w.payloads == Payloads(input[..i]) && Records(w.blobs, input[..i])
      invariant |w.inner| <= |MAGIC| + |Concat(Payloads(input[..i]))|
    {
      OneMorePayload(input, i);
      ghost var before := w.blobs;
      w.AddBlob(input[i]);
      OneMoreRecord(before, input, i, w.blobs[i]);
      assert w.blobs == before + [w.blobs[i]];
    }
    assert input[..|input|] == input;
  }

  /** Adds every blob of the input, in order, and finishes the file. */
  method WriteFile(codec: Codec, version: string, input: seq<Blob>)
    returns (file: Result<Bytes>, ghost footer: FooterPayload)
    requires |Concat(Payloads(input))| + 2 * |MAGIC| <= U64_MAX
    ensures Tiles(footer.blobs, Payloads(input)) && Records(footer.blobs, input)
    ensures footer.properties == StandardProperties(version)
    ensures var encoded := codec.encode(footer);
            file == if |encoded| < U32_SPAN then Ok(FileBytes(Payloads(input), encoded)) else Err(FooterExceedsU32)
  {
    var w := new PuffinWriter(codec, version);
    AddAll(w, input);
    footer := FooterPayload(w.blobs, w.properties);
    file := w.Finish();
  }

  /** Reading back a finished file with its own footer. */
  method OpenThenRead(codec: Codec, data: Bytes, idx: nat, ghost payloads: seq<Bytes>, ghost footer: FooterPayload)
    returns (reader: Result<PuffinReader>, bytes: Result<Bytes>)
    requires codec.Faithful() && |codec.encode(footer)| < U32_SPAN && |data| <= U64_MAX
    requires data == FileBytes(payloads, codec.encode(footer)) && Tiles(footer.blobs, payloads) && idx < |payloads|
    ensures reader.Ok? <==> |codec.encode(footer)| <= MAX_FOOTER_LEN && |payloads| <= MAX_BLOB_COUNT
    ensures reader.Ok? ==> reader.value.footer == footer
    ensures reader.Ok? ==> (bytes.Ok? <==> |payloads[idx]| <= MAX_BLOB_LEN)
    ensures reader.Ok? && bytes.Ok? ==> bytes.value == payloads[idx]
  {
    bytes := Err(IndexOutOfRange);
    FinishedFileOpens(payloads, footer, codec);
    reader := Open(data, codec);
    if reader.Ok? {
      TiledRangeHoldsPayload(payloads, footer.blobs, codec.encode(footer), idx, reader.value.blobDataEnd);
      bytes := ReadBlob(reader.value, idx);
    }
  }

  /**
    Writing any blobs and reading them back.  The file opens exactly when the footer is
    within the reader's limits, and blob i then comes back, byte for byte, exactly when it
    is no longer than the reader's limit.
   */
  method WriteThenRead(codec: Codec, version: string, input: seq<Blob>, idx: nat)
    returns (file: Result<Bytes>, reader: Result<PuffinReader>, bytes: Result<Bytes>, ghost footer: FooterPayload)
    requires codec.Faithful() && |Concat(Payloads(input))| + 20 + U32_SPAN <= U64_MAX
    requires idx < |input|
    ensures Tiles(footer.blobs, Payloads(input)) && Records(footer.blobs, input)
    ensures footer.properties == StandardProperties(version)
    ensures file.Ok? <==> |codec.encode(footer)| < U32_SPAN
    ensures reader.Ok? <==> |codec.encode(footer)| <= MAX_FOOTER_LEN && |input| <= MAX_BLOB_COUNT
    ensures reader.Ok? ==> reader.value.footer == footer
    ensures reader.Ok? ==> (bytes.Ok? <==> |input[idx].payload| <= MAX_BLOB_LEN)
    ensures reader.Ok? && bytes.Ok? ==> bytes.value == input[idx].payload
  {
    file, footer := WriteFile(codec, version, input);
    if file.Err? {
      return file, Err(file.error), Err(IndexOutOfRange), footer;
    }
    FileTails(Payloads(input), codec.encode(footer));
    reader, bytes := OpenThenRead(codec, file.value, idx, Payloads(input), footer);
  }

  // What the reader accepts beyond the format.

  /**
    The head magic and the footer's magic never overlap partially; but the reader accepts
    a file in which they are the same four bytes, leaving no room for blobs.
   */
  lemma MagicsCoincideOrAreApart(data: Bytes, codec: Codec)
    requires Defect(data, codec).None?
    ensures |data| - 16 - DeclaredLength(data) == 0 || |data| - 16 - DeclaredLength(data) >= |MAGIC|
  {
    var at := |data| - 16 - DeclaredLength(data);
    assert data[..4] == MAGIC && data[at..at + 4] == MAGIC;
    assert data[0] == 0x50 && data[at] == data[at..at + 4][0];
    assert data[1] == data[..4][1] && data[2] == data[..4][2] && data[3] == data[..4][3];
  }

  /** Any decodable footer of at least four bytes makes such a file. */
  lemma CoincidingMagicsAccepted(encoded: Bytes, codec: Codec)
    requires 4 <= |encoded| <= MAX_FOOTER_LEN
    requires codec.decode(encoded).Some? && |codec.decode(encoded).value.blobs| <= MAX_BLOB_COUNT
    ensures Defect(FooterBytes(encoded), codec).None?
    ensures |FooterBytes(encoded)| - 16 - DeclaredLength(FooterBytes(encoded)) == 0
  {
    FooterTails([], encoded);
    assert [] + FooterBytes(encoded) == FooterBytes(encoded);
    assert FooterBytes(encoded)[..4] == MAGIC;
    Le32RoundTrip(|encoded|);
  }
}
