/**
 The streaming readers as they run: a buffered reader that only moves forward, a running checksum
 over chunks, and a position kept beside it.
 */
module Reader {
  import opened Bytes
  import opened Crc32c
  import opened Attributes
  import opened Decimal
  import opened Record
  import opened Legacy

  const COPY_CHUNK := 32768

  /** A forward-only reader over a file's bytes. */
  class ByteReader {
    const data: Bytes
    var at: nat

    ghost predicate Valid()
      reads this
    {
      at <= |data|
    }

    constructor (data: Bytes, at: nat)
      requires at <= |data|
      ensures Valid() && this.data == data && this.at == at
    {
      this.data := data;
      this.at := at;
    }

    /** Reads exactly `n` bytes, or reports that they are not there. */
    method ReadFull(n: nat) returns (ok: bool, b: Bytes)
      requires Valid()
      modifies this
      ensures Valid()
      ensures ok <==> old(at) + n <= |data|
      ensures ok ==> at == old(at) + n && b == data[old(at)..old(at) + n]
    {
      if |data| - at < n {
        at := |data|;
        return false, [];
      }
      b := data[at..at + n];
      at := at + n;
      return true, b;
    }
  }

  /** Hashes the next `n` bytes without keeping them, at most one chunk at a time. */
  method HashValue(r: ByteReader, start: bv32, n: nat) returns (ok: bool, hash: bv32)
    requires r.Valid()
    modifies r
    ensures r.Valid()
    ensures ok <==> old(r.at) + n <= |r.data|
    ensures ok ==> r.at == old(r.at) + n && hash == Update(start, r.data[old(r.at)..old(r.at) + n])
  {
    hide Update;
    hash := start;
    var copied := 0;
    NoBytes(start);
    assert r.data[r.at..r.at] == [];
    while copied < n
      invariant 0 <= copied <= n && r.Valid() && r.at == old(r.at) + copied
      invariant hash == Update(start, r.data[old(r.at)..r.at])
      decreases n - copied
    {
      var want := if n - copied < COPY_CHUNK then n - copied else COPY_CHUNK;
      var have := |r.data| - r.at;
      var take := if want < have then want else have;
      if take == 0 {
        return false, hash;
      }
      ghost var from := r.at;
      var _, chunk := r.ReadFull(take);
      UpdateConcat(start, r.data[old(r.at)..from], chunk);
      Join(r.data, old(r.at), from, r.at);
      hash := Update(hash, chunk);
      copied := copied + take;
    }
    return true, hash;
  }

  lemma NoBytes(s: bv32)
    ensures Update(s, []) == s
  {
  }

  /** The variable part of a record: key, attributes, value and extensions hashed as they go by. */
  method ReadAreas(r: ByteReader, start: bv32, keyLen: nat, blockLen: nat, valueLen: nat, extensionsLen: nat)
    returns (ok: bool, key: Bytes, block: Bytes, extensions: Bytes, hash: bv32)
    requires r.Valid()
    modifies r
    ensures r.Valid()
    ensures ok <==> old(r.at) + keyLen + blockLen + valueLen + extensionsLen <= |r.data|
    ensures ok ==>
      var k := old(r.at); var a := k + keyLen; var v := a + blockLen; var e := v + valueLen; var c := e + extensionsLen;
      && key == r.data[k..a] && block == r.data[a..v] && extensions == r.data[e..c]
      && r.at == c && hash == Update(start, r.data[k..c])
  {
    hide Update;
    ghost var k := r.at;
    block, extensions, hash := [], [], start;
    ok, key := r.ReadFull(keyLen);
    if !ok {
      return;
    }
    hash := Update(hash, key);
    ghost var a := r.at;
    ok, block := r.ReadFull(blockLen);
    if !ok {
      return;
    }
    Chunk(start, r.data, k, a, r.at);
    hash := Update(hash, block);
    ghost var v := r.at;
    ok, hash := HashValue(r, hash, valueLen);
    if !ok {
      return;
    }
    Chunk(start, r.data, k, v, r.at);
    ghost var e := r.at;
    ok, extensions := r.ReadFull(extensionsLen);
    if !ok {
      return;
    }
    Chunk(start, r.data, k, e, r.at);
    hash := Update(hash, extensions);
  }

  lemma Chunk(s: bv32, data: Bytes, i: nat, j: nat, k: nat)
    requires i <= j <= k <= |data|
    ensures Update(s, data[i..k]) == Update(Update(s, data[i..j]), data[j..k])
  {
    hide Update;
    Join(data, i, j, k);
    UpdateConcat(s, data[i..j], data[j..k]);
  }

  /** Reads the length and the fixed fields, and decides whether they can be a record at all. */
  method ReadFixed(r: ByteReader) returns (verdict: Option<Parse>, recordLength: nat, fixed: Bytes)
    requires r.Valid()
    modifies r
    ensures r.Valid()
    ensures verdict.Some? ==> verdict == Some(ParseRecord(r.data, old(r.at))) && !verdict.value.Parsed?
    ensures verdict.None? ==>
      && r.at == old(r.at) + 20 && FieldsFit(r.data, old(r.at))
      && recordLength == LengthField(r.data, old(r.at)) && fixed == r.data[old(r.at) + 4..old(r.at) + 20]
  {
    hide Number, Interpret, RawAt, ChecksumMatches;
    ghost var start := r.at;
    var ok;
    recordLength := 0;
    ok, fixed := r.ReadFull(4);
    if !ok {
      return Some(EndOfInput), 0, [];
    }
    recordLength := Number(fixed);
    if recordLength < MINIMUM_LENGTH {
      return Some(Malformed), 0, [];
    }
    ok, fixed := r.ReadFull(FIXED_BODY_SIZE);
    if !ok {
      return Some(EndOfInput), 0, [];
    }
    FixedFields(r.data, start);
    var keyLen, blockLen, valueLen := Number(fixed[4..8]), Number(fixed[8..12]), Number(fixed[12..16]);
    if keyLen > MAX_KEY_SIZE || blockLen > MAX_ATTRIBUTES_SIZE || valueLen > MAX_VALUE_SIZE {
      return Some(Malformed), 0, [];
    }
    var knownLength := MINIMUM_LENGTH + keyLen + blockLen + valueLen;
    if knownLength > recordLength {
      return Some(Malformed), 0, [];
    }
    if recordLength - knownLength > MAX_EXTENSIONS_SIZE {
      return Some(Malformed), 0, [];
    }
    return None, recordLength, fixed;
  }

  /** Reads one version 4 or 5 record; on success the reader stands exactly behind it. */
  method ReadRecordFrom(r: ByteReader) returns (p: Parse)
    requires r.Valid()
    modifies r
    ensures r.Valid()
    ensures p == ParseRecord(r.data, old(r.at))
    ensures p.Parsed? ==> r.at == p.next
  {
    hide Number, Update, ExtensionsFramed, DecodeAttributes, Xor, ToNat, ParseRecord;
    var start := r.at;
    var verdict, recordLength, fixed := ReadFixed(r);
    if verdict.Some? {
      return verdict.value;
    }
    FixedFields(r.data, start);
    Conclusion(r.data, start);
    var flags := fixed[0];
    var keyLen, blockLen, valueLen := Number(fixed[4..8]), Number(fixed[8..12]), Number(fixed[12..16]);
    var extensionsLen := recordLength - (MINIMUM_LENGTH + keyLen + blockLen + valueLen);
    var ok, key, block, extensions, hash :=
      ReadAreas(r, Update(ALL_ONES, fixed), keyLen, blockLen, valueLen, extensionsLen);
    if !ok {
      return EndOfInput;
    }
    Chunk(ALL_ONES, r.data, start + 4, start + 20, r.at);
    ok, fixed := r.ReadFull(4);
    if !ok {
      return EndOfInput;
    }
    if ToNat(Xor(hash, ALL_ONES)) != Number(fixed) {
      return Malformed;
    }
    var framed := ValidateExtensions(extensions);
    if !framed {
      return Malformed;
    }
    var decoded := ReadAttributes(block);
    match decoded
    case Invalid => return Malformed;
    case UnexpectedEnd => return EndOfInput;
    case Map(attributes) =>
      var valueOffset := start + FIELDS_OFFSET + keyLen + blockLen;
      return Parsed(LogRecord(key, valueOffset, valueLen, start, recordLength + 4, flags % 2 == 1, attributes), r.at);
  }

  /** What remains to be decided once the fixed fields fit. */
  lemma Conclusion(data: Bytes, pos: nat)
    requires pos + 20 <= |data| && FieldsFit(data, pos)
    ensures var n := LengthField(data, pos);
      var a := pos + 20 + KeyLen(data, pos); var v := a + BlockLen(data, pos); var e := v + ValueLen(data, pos);
      ParseRecord(data, pos) ==
      if !Complete(data, pos, n) then EndOfInput
      else if Checksum(data[pos + 4..pos + n]) != Number(data[pos + n..pos + n + 4]) then Malformed
      else if !ExtensionsFramed(data[e..pos + n]) then Malformed
      else match DecodeAttributes(data[a..v])
        case Invalid => Malformed
        case UnexpectedEnd => EndOfInput
        case Map(m) =>
          Parsed(LogRecord(data[pos + 20..a], v, ValueLen(data, pos), pos, n + 4, data[pos + 4] % 2 == 1, m), pos + n + 4)
  {
    hide Number, ExtensionsFramed, DecodeAttributes, Checksum;
  }

  lemma FixedFields(data: Bytes, pos: nat)
    requires pos + 20 <= |data|
    ensures var fixed := data[pos + 4..pos + 20];
      && fixed[0] == data[pos + 4]
      && fixed[4..8] == data[pos + 8..pos + 12]
      && fixed[8..12] == data[pos + 12..pos + 16]
      && fixed[12..16] == data[pos + 16..pos + 20]
  {
    SubSlice(data, pos + 4, pos + 20, 4, 8);
    SubSlice(data, pos + 4, pos + 20, 8, 12);
    SubSlice(data, pos + 4, pos + 20, 12, 16);
  }

  // --------------------------------------------------------------- legacy records

  /** Reads a 16-bit length and that many bytes. */
  method ReadField(r: ByteReader) returns (ok: bool, text: Bytes)
    requires r.Valid()
    modifies r
    ensures r.Valid()
    ensures ok <==> TextAt(r.data, old(r.at)).Some?
    ensures ok ==> TextAt(r.data, old(r.at)) == Some(Text(text, r.at))
  {
    hide Number;
    var b;
    text := [];
    ok, b := r.ReadFull(2);
    if ok {
      ok, text := r.ReadFull(Number(b));
    }
  }

  method ReadU64(r: ByteReader) returns (ok: bool, i: int)
    requires r.Valid()
    modifies r
    ensures r.Valid()
    ensures ok <==> IntAt(r.data, old(r.at)).Some?
    ensures ok ==> IntAt(r.data, old(r.at)) == Some(i) && r.at == old(r.at) + 8
  {
    hide Number;
    var b;
    i := 0;
    ok, b := r.ReadFull(8);
    if ok {
      RadixValues();
      i := ToInt64(Number(b));
    }
  }

  /** Reads one version 1, 2 or 3 record; on success the reader stands exactly behind it. */
  method ReadLegacyRecordFrom(r: ByteReader, version: nat) returns (p: Parse)
    requires r.Valid()
    modifies r
    ensures r.Valid()
    ensures p == ParseLegacy(r.data, old(r.at), version)
    ensures p.Parsed? ==> r.at == p.next
  {
    hide Number, FieldsAt, LegacyAttributes;
    var start := r.at;
    var ok, b := r.ReadFull(4);
    if !ok {
      return EndOfInput;
    }
    var keyLen := Number(b);
    if keyLen > MAX_KEY_SIZE {
      return Malformed;
    }
    var key;
    ok, key := r.ReadFull(keyLen);
    if !ok {
      return EndOfInput;
    }
    ok, b := r.ReadFull(4);
    if !ok {
      return EndOfInput;
    }
    var valueLen := Number(b);
    if valueLen > MAX_VALUE_SIZE {
      return Malformed;
    }
    var valueOffset := r.at;
    ok, b := r.ReadFull(valueLen);
    if !ok {
      return EndOfInput;
    }
    ok, b := r.ReadFull(1);
    if !ok {
      return EndOfInput;
    }
    var flags := b[0];
    var fields;
    ok, fields := ReadFields(r, version);
    if !ok {
      return EndOfInput;
    }
    var attributes := LegacyAttributes(fields, flags / 2 % 2 == 1, version);
    return Parsed(LogRecord(key, valueOffset, valueLen, start, r.at - start, flags % 2 == 1, attributes), r.at);
  }

  /** The named fields, in file order. */
  method ReadFields(r: ByteReader, version: nat) returns (ok: bool, fields: Fields)
    requires r.Valid()
    modifies r
    ensures r.Valid()
    ensures ok <==> FieldsAt(r.data, old(r.at), version).Some?
    ensures ok ==> FieldsAt(r.data, old(r.at), version) == Some(FieldsRead(fields, r.at))
  {
    hide TextAt, IntAt;
    fields := Fields([], [], [], [], 0, [], 0);
    var category, provider, status, name, totalSize;
    ok, category := ReadField(r);
    if !ok {
      return;
    }
    ok, provider := ReadField(r);
    if !ok {
      return;
    }
    ok, status := ReadField(r);
    if !ok {
      return;
    }
    ok, name := ReadField(r);
    if !ok {
      return;
    }
    ok, totalSize := ReadU64(r);
    if !ok {
      return;
    }
    var protocol, addedOn := [], 0;
    if version >= 3 {
      ok, protocol := ReadField(r);
      if !ok {
        return;
      }
      ok, addedOn := ReadU64(r);
      if !ok {
        return;
      }
    }
    fields := Fields(category, provider, status, name, totalSize, protocol, addedOn);
  }
}
