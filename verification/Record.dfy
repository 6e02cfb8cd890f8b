/**
 One stored record: the writer's frame, the streaming reader and the random-access validator.

   length(4)  flags(1) reserved(3) keyLen(4) blockLen(4) valueLen(4)  key block value extensions  crc(4)

 The length counts everything after itself; the checksum covers flags through extensions.
 */
module Record {
  import opened Bytes
  import opened Crc32c
  import opened Attributes

  const MAX_KEY_SIZE := 0x10_0000
  const MAX_VALUE_SIZE := 0x7FFF_FFFF
  const MAX_EXTENSIONS_SIZE := 0x100_0000
  const FIXED_BODY_SIZE := 16
  const MINIMUM_LENGTH := 20
  const FIELDS_OFFSET := 20
  const EXTENSION_HEADER_SIZE := 6

  /** The fields of a record as they are stored. */
  datatype Raw = Raw(flags: byte, reserved: Bytes, key: Bytes, block: Bytes, value: Bytes, extensions: Bytes)

  /** What the scanner delivers for a record: where it is and what it says, without the value. */
  datatype LogRecord = LogRecord(
    key: Bytes,
    offset: nat,
    size: nat,
    recordOffset: nat,
    storedSize: nat,
    deleted: bool,
    attributes: Attributes)

  /** The limits the reader enforces on the stored fields. */
  predicate WithinLimits(r: Raw) {
    && |r.reserved| == 3
    && |r.key| <= MAX_KEY_SIZE
    && |r.block| <= MAX_ATTRIBUTES_SIZE
    && |r.value| <= MAX_VALUE_SIZE
    && |r.extensions| <= MAX_EXTENSIONS_SIZE
  }

  /** The length of the record when it has no extensions. */
  function KnownLength(r: Raw): nat {
    MINIMUM_LENGTH + |r.key| + |r.block| + |r.value|
  }

  function RecordLength(r: Raw): nat {
    KnownLength(r) + |r.extensions|
  }

  function Fixed(r: Raw): Bytes {
    [r.flags] + r.reserved + LittleEndian(|r.key|, 4) + LittleEndian(|r.block|, 4) + LittleEndian(|r.value|, 4)
  }

  /** Everything the checksum covers. */
  function Body(r: Raw): (b: Bytes)
    requires |r.reserved| == 3
    ensures |b| + 4 == RecordLength(r)
  {
    Fixed(r) + r.key + r.block + r.value + r.extensions
  }

  /** The stored bytes of a record. */
  function Frame(r: Raw): (b: Bytes)
    requires |r.reserved| == 3
    ensures |b| == 4 + RecordLength(r)
  {
    LittleEndian(RecordLength(r), 4) + Body(r) + LittleEndian(Checksum(Body(r)), 4)
  }

  /** The extension area is a run of tagged entries, each length inside the area. */
  predicate ExtensionsFramed(extensions: Bytes) {
    if |extensions| == 0 then true
    else if |extensions| < EXTENSION_HEADER_SIZE then false
    else
      var length := Number(extensions[2..6]);
      length <= |extensions| - EXTENSION_HEADER_SIZE &&
      ExtensionsFramed(extensions[EXTENSION_HEADER_SIZE + length..])
  }

  /** One entry of an extension area: a 16-bit tag, a 32-bit length, and that many bytes. */
  datatype Extension = Extension(tag: Bytes, payload: Bytes)

  predicate ExtensionFits(e: Extension) {
    |e.tag| == 2 && |e.payload| < 0x1_0000_0000
  }

  function ExtensionBytes(e: Extension): Bytes {
    e.tag + LittleEndian(|e.payload|, 4) + e.payload
  }

  function ExtensionArea(es: seq<Extension>): Bytes {
    if |es| == 0 then [] else ExtensionBytes(es[0]) + ExtensionArea(es[1..])
  }

  /** An area is framed exactly when it is the entries of some list, one after the other. */
  lemma FramedIff(area: Bytes)
    ensures ExtensionsFramed(area) <==>
      exists es: seq<Extension> :: (forall e :: e in es ==> ExtensionFits(e)) && area == ExtensionArea(es)
  {
    hide ExtensionsFramed, ExtensionArea, ExtensionFits;
    if ExtensionsFramed(area) {
      var es := FramedEntries(area);
    }
    forall es: seq<Extension> | (forall e :: e in es ==> ExtensionFits(e)) && area == ExtensionArea(es)
      ensures ExtensionsFramed(area)
    {
      EntriesFramed(es);
    }
  }

  lemma {:induction false} FramedEntries(area: Bytes) returns (es: seq<Extension>)
    requires ExtensionsFramed(area)
    ensures (forall e :: e in es ==> ExtensionFits(e)) && area == ExtensionArea(es)
    decreases |area|
  {
    hide Number, LittleEndian;
    RadixValues();
    es := [];
    if |area| > 0 {
      var n := 6 + Number(area[2..6]);
      var rest := FramedEntries(area[n..]);
      LittleEndianOfNumber(area[2..6]);
      var e := Extension(area[..2], area[6..n]);
      assert area == area[..2] + area[2..6] + area[6..n] + area[n..];
      es := [e] + rest;
      assert es[1..] == rest;
    }
  }

  lemma {:induction false} EntriesFramed(es: seq<Extension>)
    requires forall e :: e in es ==> ExtensionFits(e)
    ensures ExtensionsFramed(ExtensionArea(es))
  {
    hide Number, LittleEndian;
    RadixValues();
    if |es| > 0 {
      EntriesFramed(es[1..]);
      var e, area := es[0], ExtensionArea(es);
      assert ExtensionFits(e);
      assert area[2..6] == LittleEndian(|e.payload|, 4);
      NumberOfLittleEndian(|e.payload|, 4);
      assert area[6 + |e.payload|..] == ExtensionArea(es[1..]);
    }
  }

  /** Walks the extension area entry by entry. */
  method ValidateExtensions(extensions: Bytes) returns (ok: bool)
    ensures ok <==> ExtensionsFramed(extensions)
  {
    hide Number;
    var pos := 0;
    assert extensions[0..] == extensions;
    while pos < |extensions|
      invariant 0 <= pos <= |extensions|
      invariant ExtensionsFramed(extensions) <==> ExtensionsFramed(extensions[pos..])
    {
      ghost var area := extensions[pos..];
      if |extensions| - pos < EXTENSION_HEADER_SIZE {
        return false;
      }
      var length := Number(extensions[pos + 2..pos + 6]);
      assert area[2..6] == extensions[pos + 2..pos + 6];
      pos := pos + EXTENSION_HEADER_SIZE;
      if length > |extensions| - pos {
        return false;
      }
      pos := pos + length;
      assert area[EXTENSION_HEADER_SIZE + length..] == extensions[pos..];
    }
    return true;
  }

  // --------------------------------------------------------------- streaming reader

  /** What the streaming reader makes of the bytes at a position. */
  datatype Parse = Parsed(record: LogRecord, next: nat) | EndOfInput | Malformed

  function LengthField(data: Bytes, pos: nat): nat
    requires pos + 4 <= |data|
  {
    Number(data[pos..pos + 4])
  }

  function KeyLen(data: Bytes, pos: nat): nat
    requires pos + 20 <= |data|
  {
    Number(data[pos + 8..pos + 12])
  }

  function BlockLen(data: Bytes, pos: nat): nat
    requires pos + 20 <= |data|
  {
    Number(data[pos + 12..pos + 16])
  }

  function ValueLen(data: Bytes, pos: nat): nat
    requires pos + 20 <= |data|
  {
    Number(data[pos + 16..pos + 20])
  }

  function KnownAt(data: Bytes, pos: nat): nat
    requires pos + 20 <= |data|
  {
    MINIMUM_LENGTH + KeyLen(data, pos) + BlockLen(data, pos) + ValueLen(data, pos)
  }

  /** The length fields are within the limits and fit inside the record length. */
  predicate FieldsFit(data: Bytes, pos: nat)
    requires pos + 20 <= |data|
  {
    && KeyLen(data, pos) <= MAX_KEY_SIZE
    && BlockLen(data, pos) <= MAX_ATTRIBUTES_SIZE
    && ValueLen(data, pos) <= MAX_VALUE_SIZE
    && KnownAt(data, pos) <= LengthField(data, pos)
    && LengthField(data, pos) - KnownAt(data, pos) <= MAX_EXTENSIONS_SIZE
  }

  /** A record of `length` bytes after its length field is there in full. */
  predicate Complete(data: Bytes, pos: nat, length: nat) {
    pos + 4 + length <= |data|
  }

  predicate ChecksumMatches(data: Bytes, pos: nat, length: nat)
    requires length >= MINIMUM_LENGTH && Complete(data, pos, length)
  {
    Checksum(data[pos + 4..pos + length]) == Number(data[pos + length..pos + length + 4])
  }

  /** The stored fields of a complete record whose length fields fit. */
  function RawAt(data: Bytes, pos: nat): (r: Raw)
    requires pos + 20 <= |data| && FieldsFit(data, pos) && Complete(data, pos, LengthField(data, pos))
    ensures WithinLimits(r) && RecordLength(r) == LengthField(data, pos)
  {
    var k := pos + 20;
    var a := k + KeyLen(data, pos);
    var v := a + BlockLen(data, pos);
    var e := v + ValueLen(data, pos);
    Raw(data[pos + 4], data[pos + 5..pos + 8], data[k..a], data[a..v], data[v..e], data[e..pos + LengthField(data, pos)])
  }

  /** What a checksummed record at `pos` is read as. */
  function Interpret(r: Raw, pos: nat): Parse {
    if !ExtensionsFramed(r.extensions) then Malformed
    else match DecodeAttributes(r.block)
      case Invalid => Malformed
      case UnexpectedEnd => EndOfInput
      case Map(m) =>
        var valueAt := pos + FIELDS_OFFSET + |r.key| + |r.block|;
        Parsed(LogRecord(r.key, valueAt, |r.value|, pos, 4 + RecordLength(r), r.flags % 2 == 1, m), pos + 4 + RecordLength(r))
  }

  /** The outcome of reading one version 4 or 5 record at `pos`. */
  function ParseRecord(data: Bytes, pos: nat): (p: Parse)
    requires pos <= |data|
    ensures p.Parsed? ==> pos + 24 <= p.next <= |data|
  {
    if |data| - pos < 4 then EndOfInput
    else if LengthField(data, pos) < MINIMUM_LENGTH then Malformed
    else if |data| - pos < 20 then EndOfInput
    else if !FieldsFit(data, pos) then Malformed
    else if !Complete(data, pos, LengthField(data, pos)) then EndOfInput
    else if !ChecksumMatches(data, pos, LengthField(data, pos)) then Malformed
    else Interpret(RawAt(data, pos), pos)
  }

  ghost predicate IsFrameAt(data: Bytes, pos: nat, r: Raw)
    requires |r.reserved| == 3
  {
    pos + |Frame(r)| <= |data| && data[pos..pos + |Frame(r)|] == Frame(r)
  }

  /** Where each part of a frame sits. */
  lemma FrameParts(data: Bytes, pos: nat, r: Raw)
    requires |r.reserved| == 3 && IsFrameAt(data, pos, r)
    ensures var n := RecordLength(r);
      && data[pos..pos + 4] == LittleEndian(n, 4)
      && data[pos + 4..pos + n] == Body(r)
      && data[pos + n..pos + n + 4] == LittleEndian(Checksum(Body(r)), 4)
  {
    hide LittleEndian, Checksum, Body;
    var n := RecordLength(r);
    var l, b, c := LittleEndian(n, 4), Body(r), LittleEndian(Checksum(Body(r)), 4);
    Split(data, pos, l + b, c);
    Split(data, pos, l, b);
  }

  lemma BodyParts(data: Bytes, at: nat, r: Raw)
    requires |r.reserved| == 3 && at + |Body(r)| <= |data| && data[at..at + |Body(r)|] == Body(r)
    ensures data[at..at + 16] == Fixed(r)
    ensures var k := at + 16; var a := k + |r.key|; var v := a + |r.block|; var e := v + |r.value|;
      && data[k..a] == r.key && data[a..v] == r.block && data[v..e] == r.value
      && data[e..at + |Body(r)|] == r.extensions
  {
    hide LittleEndian, Fixed;
    var f := Fixed(r);
    assert |f| == 16 by { FixedSize(r); }
    Split(data, at, f + r.key + r.block + r.value, r.extensions);
    Split(data, at, f + r.key + r.block, r.value);
    Split(data, at, f + r.key, r.block);
    Split(data, at, f, r.key);
  }

  lemma FixedSize(r: Raw)
    requires |r.reserved| == 3
    ensures |Fixed(r)| == 16
  {
  }

  lemma FixedParts(data: Bytes, at: nat, r: Raw)
    requires |r.reserved| == 3 && at + 16 <= |data| && data[at..at + 16] == Fixed(r)
    ensures data[at] == r.flags && data[at + 1..at + 4] == r.reserved
    ensures data[at + 4..at + 8] == LittleEndian(|r.key|, 4)
    ensures data[at + 8..at + 12] == LittleEndian(|r.block|, 4)
    ensures data[at + 12..at + 16] == LittleEndian(|r.value|, 4)
  {
    hide LittleEndian;
    var k, b, v := LittleEndian(|r.key|, 4), LittleEndian(|r.block|, 4), LittleEndian(|r.value|, 4);
    Split(data, at, [r.flags] + r.reserved + k + b, v);
    Split(data, at, [r.flags] + r.reserved + k, b);
    Split(data, at, [r.flags] + r.reserved, k);
    Split(data, at, [r.flags], r.reserved);
    assert data[at..at + 1][0] == r.flags;
  }

  /** The reader recovers exactly the fields that were framed. */
  lemma FrameRead(data: Bytes, pos: nat, r: Raw)
    requires WithinLimits(r) && IsFrameAt(data, pos, r)
    ensures LengthField(data, pos) == RecordLength(r)
    ensures KeyLen(data, pos) == |r.key| && BlockLen(data, pos) == |r.block| && ValueLen(data, pos) == |r.value|
    ensures FieldsFit(data, pos) && Complete(data, pos, RecordLength(r)) && ChecksumMatches(data, pos, RecordLength(r))
    ensures RawAt(data, pos) == r
  {
    hide LittleEndian, Number, Checksum, Body, Frame, Fixed;
    RadixValues();
    FrameParts(data, pos, r);
    BodyParts(data, pos + 4, r);
    FixedParts(data, pos + 4, r);
    NumberOfLittleEndian(RecordLength(r), 4);
    NumberOfLittleEndian(|r.key|, 4);
    NumberOfLittleEndian(|r.block|, 4);
    NumberOfLittleEndian(|r.value|, 4);
    NumberOfLittleEndian(Checksum(Body(r)), 4);
  }

  /** The reader accepts every frame within the limits and reads it as its fields say. */
  lemma ParseOfFrame(data: Bytes, pos: nat, r: Raw)
    requires WithinLimits(r) && IsFrameAt(data, pos, r)
    ensures ParseRecord(data, pos) == Interpret(r, pos)
  {
    hide FieldsFit, ChecksumMatches, RawAt, LengthField, Frame, Interpret;
    FrameRead(data, pos, r);
  }

  /** A complete record with a matching checksum is the frame of its fields. */
  lemma FrameOfFields(data: Bytes, pos: nat)
    requires pos + 20 <= |data| && FieldsFit(data, pos) && Complete(data, pos, LengthField(data, pos))
    requires ChecksumMatches(data, pos, LengthField(data, pos))
    ensures IsFrameAt(data, pos, RawAt(data, pos))
  {
    hide LittleEndian, Number, Checksum;
    var r := RawAt(data, pos);
    var n := LengthField(data, pos);
    RadixValues();
    LittleEndianOfNumber(data[pos..pos + 4]);
    LittleEndianOfNumber(data[pos + n..pos + n + 4]);
    BodyOfFields(data, pos);
    Join(data, pos, pos + 4, pos + n);
    Join(data, pos, pos + n, pos + n + 4);
  }

  lemma BodyOfFields(data: Bytes, pos: nat)
    requires pos + 20 <= |data| && FieldsFit(data, pos) && Complete(data, pos, LengthField(data, pos))
    ensures data[pos + 4..pos + LengthField(data, pos)] == Body(RawAt(data, pos))
  {
    hide LittleEndian, Number, Fixed;
    var r := RawAt(data, pos);
    FixedOfFields(data, pos, r);
    var k := pos + 20;
    var a := k + |r.key|;
    var v := a + |r.block|;
    var e := v + |r.value|;
    Join(data, pos + 4, k, a);
    Join(data, pos + 4, a, v);
    Join(data, pos + 4, v, e);
    Join(data, pos + 4, e, pos + LengthField(data, pos));
  }

  lemma FixedOfFields(data: Bytes, pos: nat, r: Raw)
    requires pos + 20 <= |data|
    requires r.flags == data[pos + 4] && r.reserved == data[pos + 5..pos + 8]
    requires |r.key| == KeyLen(data, pos) && |r.block| == BlockLen(data, pos) && |r.value| == ValueLen(data, pos)
    ensures data[pos + 4..pos + 20] == Fixed(r)
  {
    hide LittleEndian, Number;
    LittleEndianOfNumber(data[pos + 8..pos + 12]);
    LittleEndianOfNumber(data[pos + 12..pos + 16]);
    LittleEndianOfNumber(data[pos + 16..pos + 20]);
    assert data[pos + 4..pos + 5] == [r.flags];
    Join(data, pos + 4, pos + 5, pos + 8);
    Join(data, pos + 4, pos + 8, pos + 12);
    Join(data, pos + 4, pos + 12, pos + 16);
    Join(data, pos + 4, pos + 16, pos + 20);
  }

  /**
   The reader's language: it accepts at `pos` exactly when the frame of some record within the
   limits starts there, with framed extensions and a decodable attribute block.
   */
  lemma AcceptsIff(data: Bytes, pos: nat)
    requires pos <= |data|
    ensures ParseRecord(data, pos).Parsed? <==>
      exists r: Raw :: WithinLimits(r) && Interpret(r, pos).Parsed? && IsFrameAt(data, pos, r)
  {
    hide FieldsFit, ChecksumMatches, RawAt, LengthField, Frame, Interpret, IsFrameAt;
    if ParseRecord(data, pos).Parsed? {
      FrameOfFields(data, pos);
      var r := RawAt(data, pos);
      assert WithinLimits(r) && Interpret(r, pos).Parsed? && IsFrameAt(data, pos, r);
    }
    forall r: Raw | WithinLimits(r) && Interpret(r, pos).Parsed? && IsFrameAt(data, pos, r)
      ensures ParseRecord(data, pos).Parsed?
    {
      ParseOfFrame(data, pos, r);
    }
  }
}
