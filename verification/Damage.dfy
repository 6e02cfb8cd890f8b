/**
 What the readers make of damaged records: an interrupted write, one changed byte, and a changed
 length field (which the checksum does not cover). Also the random-access validator and its
 agreement with the streaming reader.
 */
module Damage {
  import opened Bytes
  import opened Crc32c
  import opened Attributes
  import opened Record

  /** A strict prefix of a frame at the end of the data reads as end of input, never as corruption. */
  lemma TornFrame(before: Bytes, r: Raw, n: nat)
    requires WithinLimits(r) && n < |Frame(r)|
    ensures ParseRecord(before + Frame(r)[..n], |before|) == EndOfInput
  {
    hide Frame, Number, Checksum;
    var data, whole, pos := before + Frame(r)[..n], before + Frame(r), |before|;
    assert whole[pos..pos + |Frame(r)|] == Frame(r);
    FrameRead(whole, pos, r);
    if n >= 4 {
      assert data[pos..pos + 4] == whole[pos..pos + 4];
    }
    if n >= 20 {
      assert data[pos + 8..pos + 12] == whole[pos + 8..pos + 12];
      assert data[pos + 12..pos + 16] == whole[pos + 12..pos + 16];
      assert data[pos + 16..pos + 20] == whole[pos + 16..pos + 20];
    }
  }

  /** The checksum no longer matches after one byte past the length field has changed. */
  lemma ChangedByteBreaksChecksum(data: Bytes, pos: nat, n: nat, i: nat, b: byte)
    requires n >= MINIMUM_LENGTH && Complete(data, pos, n) && ChecksumMatches(data, pos, n)
    requires pos + 4 <= i < pos + 4 + n && b != data[i]
    ensures !ChecksumMatches(data[i := b], pos, n)
  {
    hide Checksum, Number;
    var data' := data[i := b];
    var body, trailer := data[pos + 4..pos + n], data[pos + n..pos + n + 4];
    var body', trailer' := data'[pos + 4..pos + n], data'[pos + n..pos + n + 4];
    if i < pos + n {
      assert trailer' == trailer;
      assert body' == body[i - pos - 4 := b];
      OneByteChangesChecksum(body, i - pos - 4, b);
    } else {
      assert body' == body;
      assert trailer'[i - pos - n] == b && trailer[i - pos - n] == data[i];
      if Number(trailer') == Number(trailer) {
        NumberInjective(trailer', trailer);
      }
    }
  }

  /** One changed byte after the length field of a complete record is always reported as corruption. */
  lemma ChangedByteIsMalformed(data: Bytes, pos: nat, r: Raw, i: nat, b: byte)
    requires WithinLimits(r) && IsFrameAt(data, pos, r)
    requires pos + 4 <= i < pos + |Frame(r)| && b != data[i]
    ensures ParseRecord(data[i := b], pos) == Malformed
  {
    hide Frame, Number, ChecksumMatches, FieldsFit;
    FrameRead(data, pos, r);
    ChangedByteBreaksChecksum(data, pos, RecordLength(r), i, b);
    assert data[i := b][pos..pos + 4] == data[pos..pos + 4];
  }

  /** Replaces the length field of the record at `pos`. */
  function WithLength(data: Bytes, pos: nat, length: nat): (d: Bytes)
    requires pos + 4 <= |data| && length < 0x1_0000_0000
    ensures |d| == |data|
  {
    data[..pos] + LittleEndian(length, 4) + data[pos + 4..]
  }

  /**
   The length field is outside the checksum. Overwriting it makes the reader take the record for a
   torn tail exactly when the new length still leaves room for the fields, claims no more extension
   bytes than the limit, and runs past the end of the data.
   */
  lemma ChangedLengthReadsAsTornIff(data: Bytes, pos: nat, r: Raw, length: nat)
    requires WithinLimits(r) && IsFrameAt(data, pos, r) && Interpret(r, pos).Parsed?
    requires length < 0x1_0000_0000
    ensures ParseRecord(WithLength(data, pos, length), pos) == EndOfInput <==>
      && KnownLength(r) <= length <= KnownLength(r) + MAX_EXTENSIONS_SIZE
      && pos + 4 + length > |data|
  {
    hide Frame, Number, LittleEndian, ChecksumMatches;
    var data' := WithLength(data, pos, length);
    RadixValues();
    FrameRead(data, pos, r);
    LengthOverwritten(data, pos, length);
    NumberOfLittleEndian(length, 4);
    if FieldsFit(data', pos) && Complete(data', pos, length) {
      var r' := RawAt(data', pos);
      BlockUnchanged(data, pos, length, r);
      assert r'.block == r.block;
    }
  }

  lemma LengthOverwritten(data: Bytes, pos: nat, length: nat)
    requires pos + 20 <= |data| && length < 0x1_0000_0000
    ensures var data' := WithLength(data, pos, length);
      && data'[pos..pos + 4] == LittleEndian(length, 4)
      && data'[pos + 8..pos + 12] == data[pos + 8..pos + 12]
      && data'[pos + 12..pos + 16] == data[pos + 12..pos + 16]
      && data'[pos + 16..pos + 20] == data[pos + 16..pos + 20]
      && forall i :: pos + 4 <= i < |data| ==> data'[i] == data[i]
  {
    hide LittleEndian;
  }

  lemma BlockUnchanged(data: Bytes, pos: nat, length: nat, r: Raw)
    requires WithinLimits(r) && IsFrameAt(data, pos, r) && length < 0x1_0000_0000
    ensures var a := pos + 20 + |r.key|;
      a + |r.block| <= |data| && WithLength(data, pos, length)[a..a + |r.block|] == r.block
  {
    hide Frame, Number, LittleEndian, ChecksumMatches;
    FrameRead(data, pos, r);
    LengthOverwritten(data, pos, length);
    var a := pos + 20 + |r.key|;
    assert WithLength(data, pos, length)[a..a + |r.block|] == data[a..a + |r.block|];
  }

  /** A complete, checksummed record is nevertheless dropped as a torn tail exactly when its attribute block ends early. */
  lemma CompleteRecordReadsAsTornIff(data: Bytes, pos: nat, r: Raw)
    requires WithinLimits(r) && IsFrameAt(data, pos, r)
    ensures ParseRecord(data, pos) == EndOfInput <==>
      ExtensionsFramed(r.extensions) && DecodeAttributes(r.block) == UnexpectedEnd
  {
    hide ParseRecord, ExtensionsFramed, DecodeAttributes, Frame;
    ParseOfFrame(data, pos, r);
  }

  // --------------------------------------------------------------- random access

  /** Where the variable-length areas of a stored record lie. */
  datatype Bounds = Bounds(valueStart: nat, valueLen: nat, extensionsStart: nat, extensionsLen: nat)

  /** Checks one stored record and locates its areas, or rejects it. */
  function ValidateStored(record: Bytes): (r: Option<Bounds>)
    requires |record| >= 4 + MINIMUM_LENGTH
    ensures r.Some? ==>
      && r.value.valueStart + r.value.valueLen == r.value.extensionsStart
      && r.value.extensionsStart + r.value.extensionsLen + 4 == |record|
  {
    var length := LengthField(record, 0);
    if length + 4 != |record| then None
    else if !ChecksumMatches(record, 0, length) then None
    else if KnownAt(record, 0) > length then None
    else
      var valueStart := FIELDS_OFFSET + KeyLen(record, 0) + BlockLen(record, 0);
      var extensionsStart := valueStart + ValueLen(record, 0);
      Some(Bounds(valueStart, ValueLen(record, 0), extensionsStart, length - KnownAt(record, 0)))
  }

  /** Reading a slice at 0 is reading the whole at the slice's start. */
  lemma SliceFields(data: Bytes, pos: nat, next: nat)
    requires pos + 24 <= next <= |data|
    ensures var s := data[pos..next];
      && LengthField(s, 0) == LengthField(data, pos)
      && KeyLen(s, 0) == KeyLen(data, pos) && BlockLen(s, 0) == BlockLen(data, pos)
      && ValueLen(s, 0) == ValueLen(data, pos)
  {
    hide Number;
    var s := data[pos..next];
    SubSlice(data, pos, next, 0, 4);
    SubSlice(data, pos, next, 8, 12);
    SubSlice(data, pos, next, 12, 16);
    SubSlice(data, pos, next, 16, 20);
  }

  lemma SliceChecksum(data: Bytes, pos: nat, n: nat)
    requires n >= MINIMUM_LENGTH && Complete(data, pos, n)
    ensures ChecksumMatches(data[pos..pos + 4 + n], 0, n) <==> ChecksumMatches(data, pos, n)
  {
    hide Number, Checksum;
    SubSlice(data, pos, pos + 4 + n, 4, n);
    SubSlice(data, pos, pos + 4 + n, n, n + 4);
  }

  lemma SliceRaw(data: Bytes, pos: nat, n: nat)
    requires Complete(data, pos, n) && n >= MINIMUM_LENGTH && LengthField(data, pos) == n && FieldsFit(data, pos)
    requires LengthField(data[pos..pos + 4 + n], 0) == n && FieldsFit(data[pos..pos + 4 + n], 0)
    ensures RawAt(data[pos..pos + 4 + n], 0) == RawAt(data, pos)
  {
    hide KeyLen, BlockLen, ValueLen, LengthField;
    var next := pos + 4 + n;
    SliceFields(data, pos, next);
    var a := 20 + KeyLen(data, pos);
    var v := a + BlockLen(data, pos);
    var e := v + ValueLen(data, pos);
    SubSlice(data, pos, next, 5, 8);
    SubSlice(data, pos, next, 20, a);
    SubSlice(data, pos, next, a, v);
    SubSlice(data, pos, next, v, e);
    SubSlice(data, pos, next, e, n);
  }

  /**
   Both readers accept the same extents: the streaming reader accepts [pos, next) exactly when the
   validator accepts those bytes and their fields are within limits, framed and decodable.
   */
  lemma ReadersAcceptSame(data: Bytes, pos: nat, next: nat)
    requires pos + 24 <= next <= |data|
    ensures var s := data[pos..next];
      (ParseRecord(data, pos).Parsed? && ParseRecord(data, pos).next == next) <==>
      (ValidateStored(s).Some? && FieldsFit(s, 0) && Interpret(RawAt(s, 0), pos).Parsed?)
  {
    hide Number, Checksum, ChecksumMatches, ExtensionsFramed, DecodeAttributes, RawAt;
    SliceFields(data, pos, next);
    var n := next - pos - 4;
    SliceChecksum(data, pos, n);
    if LengthField(data, pos) == n && FieldsFit(data, pos) {
      SliceRaw(data, pos, n);
    }
  }

  /** On every record the streaming reader delivers, the validator finds the same value and extensions. */
  lemma ReadersAgree(data: Bytes, pos: nat)
    requires pos <= |data| && ParseRecord(data, pos).Parsed?
    ensures var rec, next := ParseRecord(data, pos).record, ParseRecord(data, pos).next;
      && rec.recordOffset == pos && rec.storedSize == next - pos
      && ValidateStored(data[pos..next]) ==
         Some(Bounds(rec.offset - pos, rec.size, rec.offset + rec.size - pos, next - 4 - rec.offset - rec.size))
  {
    hide Number, Checksum, ChecksumMatches, ExtensionsFramed, DecodeAttributes, RawAt;
    var n := LengthField(data, pos);
    FrameOfFields(data, pos);
    SliceFields(data, pos, pos + 4 + n);
    SliceChecksum(data, pos, n);
    RawLengths(data, pos);
  }

  lemma RawLengths(data: Bytes, pos: nat)
    requires pos + 20 <= |data| && FieldsFit(data, pos) && Complete(data, pos, LengthField(data, pos))
    ensures var r := RawAt(data, pos);
      && |r.key| == KeyLen(data, pos) && |r.block| == BlockLen(data, pos) && |r.value| == ValueLen(data, pos)
      && |r.extensions| == LengthField(data, pos) - KnownAt(data, pos)
  {
  }

  /** A stored record with any other length in its length field is rejected by random access. */
  lemma ChangedLengthIsRejected(record: Bytes, length: nat)
    requires |record| >= 24 && ValidateStored(record).Some?
    requires length < 0x1_0000_0000 && length != LengthField(record, 0)
    ensures ValidateStored(WithLength(record, 0, length)).None?
  {
    hide LittleEndian, Number, ChecksumMatches;
    RadixValues();
    LengthOverwritten(record, 0, length);
    NumberOfLittleEndian(length, 4);
  }

  /** A stored record with any one byte changed, the length field included, is rejected by random access. */
  lemma ChangedByteIsRejected(record: Bytes, i: nat, b: byte)
    requires |record| >= 24 && ValidateStored(record).Some?
    requires i < |record| && b != record[i]
    ensures ValidateStored(record[i := b]).None?
  {
    hide Number, ChecksumMatches;
    var record' := record[i := b];
    if i < 4 {
      assert record'[0..4][i] == b && record[0..4][i] == record[i];
      if LengthField(record', 0) == LengthField(record, 0) {
        NumberInjective(record'[0..4], record[0..4]);
      }
    } else {
      assert record'[0..4] == record[0..4];
      ChangedByteBreaksChecksum(record, 0, |record| - 4, i, b);
    }
  }
}
