/**
 Records of format versions 1 to 3: named application fields instead of an attribute map, and no
 checksum. Versions 1 and 2 stop after the total size; version 3 adds protocol and added-on.
 */
module Legacy {
  import opened Bytes
  import opened Order
  import opened Attributes
  import opened Decimal
  import opened Record

  const CATEGORY: Bytes := [99, 97, 116, 101, 103, 111, 114, 121]
  const PROVIDER: Bytes := [112, 114, 111, 118, 105, 100, 101, 114]
  const STATUS: Bytes := [115, 116, 97, 116, 117, 115]
  const NAME: Bytes := [110, 97, 109, 101]
  const TOTAL_SIZE: Bytes := [116, 111, 116, 97, 108, 95, 115, 105, 122, 101]
  const PROTOCOL: Bytes := [112, 114, 111, 116, 111, 99, 111, 108]
  const BAD: Bytes := [98, 97, 100]
  const ADDED_ON: Bytes := [97, 100, 100, 101, 100, 95, 111, 110]

  lemma FieldNamesDistinct()
    ensures CATEGORY != PROVIDER && CATEGORY != PROTOCOL && CATEGORY != ADDED_ON
    ensures PROVIDER != PROTOCOL && PROVIDER != ADDED_ON && PROTOCOL != ADDED_ON
    ensures |CATEGORY| == |PROVIDER| == |PROTOCOL| == |ADDED_ON| == 8
    ensures |STATUS| == 6 && |NAME| == 4 && |TOTAL_SIZE| == 10 && |BAD| == 3
  {
    assert CATEGORY[0] != PROVIDER[0] && CATEGORY[0] != PROTOCOL[0] && CATEGORY[0] != ADDED_ON[0];
    assert PROVIDER[3] != PROTOCOL[3] && PROVIDER[0] != ADDED_ON[0] && PROTOCOL[0] != ADDED_ON[0];
  }

  datatype Fields = Fields(
    category: Bytes,
    provider: Bytes,
    status: Bytes,
    name: Bytes,
    totalSize: int,
    protocol: Bytes,
    addedOn: int)

  // --------------------------------------------------------------- reading

  datatype Text = Text(text: Bytes, next: nat)

  /** A 16-bit length and that many bytes, if they are there. */
  function TextAt(data: Bytes, pos: nat): (r: Option<Text>)
    requires pos <= |data|
    ensures r.Some? ==> pos + 2 <= r.value.next <= |data| && |r.value.text| < 0x1_0000
  {
    if |data| - pos < 2 then None
    else
      RadixValues();
      var length := Number(data[pos..pos + 2]);
      if |data| - pos - 2 < length then None
      else Some(Text(data[pos + 2..pos + 2 + length], pos + 2 + length))
  }

  /** A 64-bit integer, if it is there. */
  function IntAt(data: Bytes, pos: nat): (r: Option<int>)
    requires pos <= |data|
    ensures r.Some? ==> pos + 8 <= |data| && IsInt64(r.value)
  {
    if |data| - pos < 8 then None
    else
      RadixValues();
      Some(ToInt64(Number(data[pos..pos + 8])))
  }

  datatype FieldsRead = FieldsRead(fields: Fields, next: nat)

  function FieldsAt(data: Bytes, pos: nat, version: nat): (r: Option<FieldsRead>)
    requires pos <= |data|
    ensures r.Some? ==> pos < r.value.next <= |data|
  {
    var category :- TextAt(data, pos);
    var provider :- TextAt(data, category.next);
    var status :- TextAt(data, provider.next);
    var name :- TextAt(data, status.next);
    var totalSize :- IntAt(data, name.next);
    var after := name.next + 8;
    if version < 3 then
      Some(FieldsRead(Fields(category.text, provider.text, status.text, name.text, totalSize, [], 0), after))
    else
      var protocol :- TextAt(data, after);
      var addedOn :- IntAt(data, protocol.next);
      Some(FieldsRead(
             Fields(category.text, provider.text, status.text, name.text, totalSize, protocol.text, addedOn),
             protocol.next + 8))
  }

  /** The attributes a legacy record is delivered with. */
  function LegacyAttributes(f: Fields, bad: bool, version: nat): Attributes {
    var common := map[
      CATEGORY := f.category,
      PROVIDER := f.provider,
      STATUS := f.status,
      NAME := f.name,
      TOTAL_SIZE := FormatInt(f.totalSize)];
    if version < 3 then common
    else common[PROTOCOL := f.protocol][BAD := FormatBool(bad)][ADDED_ON := FormatInt(f.addedOn)]
  }

  /** The flags byte and the fields that follow the value. */
  function ParseLegacyTail(data: Bytes, pos: nat, version: nat, key: Bytes, valueAt: nat, valueLen: nat): (p: Parse)
    requires pos <= valueAt && valueAt + valueLen <= |data|
    ensures p.Parsed? ==> pos < p.next <= |data|
  {
    var at := valueAt + valueLen;
    if |data| - at < 1 then EndOfInput
    else match FieldsAt(data, at + 1, version)
      case None => EndOfInput
      case Some(read) =>
        var flags := data[at];
        var attributes := LegacyAttributes(read.fields, flags / 2 % 2 == 1, version);
        Parsed(LogRecord(key, valueAt, valueLen, pos, read.next - pos, flags % 2 == 1, attributes), read.next)
  }

  /** The outcome of reading one version 1, 2 or 3 record at `pos`. */
  function ParseLegacy(data: Bytes, pos: nat, version: nat): (p: Parse)
    requires pos <= |data|
    ensures p.Parsed? ==> pos < p.next <= |data|
  {
    if |data| - pos < 4 then EndOfInput
    else
      var keyLen := Number(data[pos..pos + 4]);
      if keyLen > MAX_KEY_SIZE then Malformed
      else if |data| - pos - 4 < keyLen then EndOfInput
      else
        var at := pos + 4 + keyLen;
        if |data| - at < 4 then EndOfInput
        else
          var valueLen := Number(data[at..at + 4]);
          if valueLen > MAX_VALUE_SIZE then Malformed
          else if |data| - at - 4 < valueLen then EndOfInput
          else ParseLegacyTail(data, pos, version, data[pos + 4..at], at + 4, valueLen)
  }

  // --------------------------------------------------------------- writing

  predicate FieldSizesFit(f: Fields) {
    && |f.category| < 0x1_0000 && |f.provider| < 0x1_0000 && |f.status| < 0x1_0000
    && |f.name| < 0x1_0000 && |f.protocol| < 0x1_0000
    && IsInt64(f.totalSize) && IsInt64(f.addedOn)
  }

  function EncodeText(text: Bytes): (b: Bytes)
    ensures |b| == 2 + |text|
  {
    LittleEndian(|text|, 2) + text
  }

  function EncodeInt(i: int): (b: Bytes)
    requires IsInt64(i)
    ensures |b| == 8
  {
    LittleEndian(ToUint64(i), 8)
  }

  /** The fields of versions 1 and 2. */
  function EncodeCommon(f: Fields): Bytes
    requires FieldSizesFit(f)
  {
    EncodeText(f.category) + EncodeText(f.provider) + EncodeText(f.status) + EncodeText(f.name)
    + EncodeInt(f.totalSize)
  }

  /** The fields of version 3. */
  function EncodeFields(f: Fields): Bytes
    requires FieldSizesFit(f)
  {
    EncodeCommon(f) + EncodeText(f.protocol) + EncodeInt(f.addedOn)
  }

  function FieldBytes(f: Fields, version: nat): Bytes
    requires FieldSizesFit(f)
  {
    if version < 3 then EncodeCommon(f) else EncodeFields(f)
  }

  /** The bytes of a version 1, 2 or 3 record. */
  function LegacyFrame(key: Bytes, value: Bytes, flags: byte, f: Fields, version: nat): Bytes
    requires FieldSizesFit(f)
  {
    LittleEndian(|key|, 4) + key + LittleEndian(|value|, 4) + value + [flags] + FieldBytes(f, version)
  }

  /** The bytes of a version 3 record. */
  function V3Frame(key: Bytes, value: Bytes, flags: byte, f: Fields): Bytes
    requires FieldSizesFit(f)
  {
    LegacyFrame(key, value, flags, f, 3)
  }

  lemma TextRead(data: Bytes, pos: nat, text: Bytes)
    requires |text| < 0x1_0000 && pos + 2 + |text| <= |data|
    requires data[pos..pos + 2 + |text|] == EncodeText(text)
    ensures TextAt(data, pos) == Some(Text(text, pos + 2 + |text|))
  {
    hide LittleEndian, Number;
    RadixValues();
    Split(data, pos, LittleEndian(|text|, 2), text);
    NumberOfLittleEndian(|text|, 2);
  }

  lemma IntRead(data: Bytes, pos: nat, i: int)
    requires IsInt64(i) && pos + 8 <= |data| && data[pos..pos + 8] == EncodeInt(i)
    ensures IntAt(data, pos) == Some(i)
  {
    hide LittleEndian, Number;
    RadixValues();
    NumberOfLittleEndian(ToUint64(i), 8);
  }

  lemma CommonReadBack(data: Bytes, pos: nat, f: Fields)
    requires FieldSizesFit(f)
    requires pos + |EncodeCommon(f)| <= |data| && data[pos..pos + |EncodeCommon(f)|] == EncodeCommon(f)
    ensures TextAt(data, pos).Some?
    ensures var category := TextAt(data, pos).value;
      && category.text == f.category && TextAt(data, category.next).Some?
      && var provider := TextAt(data, category.next).value;
      && provider.text == f.provider && TextAt(data, provider.next).Some?
      && var status := TextAt(data, provider.next).value;
      && status.text == f.status && TextAt(data, status.next).Some?
      && var name := TextAt(data, status.next).value;
      && name.text == f.name && IntAt(data, name.next) == Some(f.totalSize)
      && name.next + 8 == pos + |EncodeCommon(f)|
  {
    hide EncodeText, EncodeInt, TextAt, IntAt;
    var a, b, c, d := EncodeText(f.category), EncodeText(f.provider), EncodeText(f.status), EncodeText(f.name);
    var t := EncodeInt(f.totalSize);
    Split(data, pos, a + b + c + d, t);
    Split(data, pos, a + b + c, d);
    Split(data, pos, a + b, c);
    Split(data, pos, a, b);
    TextRead(data, pos, f.category);
    TextRead(data, pos + |a|, f.provider);
    TextRead(data, pos + |a| + |b|, f.status);
    TextRead(data, pos + |a| + |b| + |c|, f.name);
    IntRead(data, pos + |a| + |b| + |c| + |d|, f.totalSize);
  }

  /** What a version keeps of the fields. */
  function Known(f: Fields, version: nat): Fields {
    if version < 3 then f.(protocol := [], addedOn := 0) else f
  }

  lemma FieldsReadBack(data: Bytes, pos: nat, f: Fields, version: nat)
    requires FieldSizesFit(f)
    requires var b := FieldBytes(f, version); pos + |b| <= |data| && data[pos..pos + |b|] == b
    ensures FieldsAt(data, pos, version) == Some(FieldsRead(Known(f, version), pos + |FieldBytes(f, version)|))
  {
    hide EncodeCommon, EncodeText, EncodeInt, TextAt, IntAt;
    if version < 3 {
      CommonReadBack(data, pos, f);
    } else {
      var a, p, o := EncodeCommon(f), EncodeText(f.protocol), EncodeInt(f.addedOn);
      Split(data, pos, a + p, o);
      Split(data, pos, a, p);
      CommonReadBack(data, pos, f);
      TextRead(data, pos + |a|, f.protocol);
      IntRead(data, pos + |a| + |p|, f.addedOn);
    }
  }

  /** Reading back a record gives its key, the place of its value, its flags, and its fields as attributes. */
  lemma ParseOfLegacyFrame(data: Bytes, pos: nat, key: Bytes, value: Bytes, flags: byte, f: Fields, version: nat)
    requires FieldSizesFit(f) && |key| <= MAX_KEY_SIZE && |value| <= MAX_VALUE_SIZE
    requires var frame := LegacyFrame(key, value, flags, f, version);
      pos + |frame| <= |data| && data[pos..pos + |frame|] == frame
    ensures var size, at := |LegacyFrame(key, value, flags, f, version)|, pos + 8 + |key|;
      && at + |value| <= |data| && data[at..at + |value|] == value
      && ParseLegacy(data, pos, version) == Parsed(
           LogRecord(key, at, |value|, pos, size, flags % 2 == 1,
                     LegacyAttributes(Known(f, version), flags / 2 % 2 == 1, version)),
           pos + size)
  {
    hide LittleEndian, Number, FieldBytes, FieldsAt, LegacyAttributes;
    RadixValues();
    var k, v, e := LittleEndian(|key|, 4), LittleEndian(|value|, 4), FieldBytes(f, version);
    Split(data, pos, k + key + v + value + [flags], e);
    Split(data, pos, k + key + v + value, [flags]);
    Split(data, pos, k + key + v, value);
    Split(data, pos, k + key, v);
    Split(data, pos, k, key);
    NumberOfLittleEndian(|key|, 4);
    NumberOfLittleEndian(|value|, 4);
    var at := pos + 8 + |key| + |value|;
    assert data[at] == data[at..at + 1][0] == flags;
    FieldsReadBack(data, at + 1, f, version);
  }

  lemma LegacyNamed(f: Fields, bad: bool, version: nat)
    ensures var m := LegacyAttributes(f, bad, version);
      && m.Keys == (if version < 3 then {CATEGORY, PROVIDER, STATUS, NAME, TOTAL_SIZE}
                    else {CATEGORY, PROVIDER, STATUS, NAME, TOTAL_SIZE, PROTOCOL, BAD, ADDED_ON})
      && m[CATEGORY] == f.category && m[PROVIDER] == f.provider && m[STATUS] == f.status && m[NAME] == f.name
      && m[TOTAL_SIZE] == FormatInt(f.totalSize)
      && (version >= 3 ==> m[PROTOCOL] == f.protocol && m[BAD] == FormatBool(bad) && m[ADDED_ON] == FormatInt(f.addedOn))
  {
    FieldNamesDistinct();
    hide CATEGORY, PROVIDER, STATUS, NAME, TOTAL_SIZE, PROTOCOL, BAD, ADDED_ON, FormatInt, FormatBool;
  }

  /**
   A version 1 or 2 record is read as its key, the place of its value, whether bit 0 of its flags makes it
   a tombstone, and exactly five attributes: the four texts as written and the number in decimal.
   */
  lemma ParseOfV2Frame(data: Bytes, pos: nat, key: Bytes, value: Bytes, flags: byte, f: Fields, version: nat)
    requires version == 1 || version == 2
    requires FieldSizesFit(f) && |key| <= MAX_KEY_SIZE && |value| <= MAX_VALUE_SIZE
    requires var frame := LegacyFrame(key, value, flags, f, version);
      pos + |frame| <= |data| && data[pos..pos + |frame|] == frame
    ensures ParseLegacy(data, pos, version).Parsed?
    ensures ParseLegacy(data, pos, version).next == pos + |LegacyFrame(key, value, flags, f, version)|
    ensures var rec := ParseLegacy(data, pos, version).record;
      && rec.key == key && rec.recordOffset == pos && rec.storedSize == |LegacyFrame(key, value, flags, f, version)|
      && rec.offset == pos + 8 + |key| && rec.size == |value| && rec.offset + |value| <= |data|
      && data[rec.offset..rec.offset + |value|] == value
      && (rec.deleted <==> flags % 2 == 1)
      && rec.attributes.Keys == {CATEGORY, PROVIDER, STATUS, NAME, TOTAL_SIZE}
      && rec.attributes[CATEGORY] == f.category && rec.attributes[PROVIDER] == f.provider
      && rec.attributes[STATUS] == f.status && rec.attributes[NAME] == f.name
      && rec.attributes[TOTAL_SIZE] == FormatInt(f.totalSize)
  {
    hide LegacyFrame, ParseLegacy, LegacyAttributes;
    ParseOfLegacyFrame(data, pos, key, value, flags, f, version);
    LegacyNamed(Known(f, version), flags / 2 % 2 == 1, version);
  }

  /** A version 3 record is read with eight attributes: `bad` is bit 1 of the flags, spelled out. */
  lemma ParseOfV3Frame(data: Bytes, pos: nat, key: Bytes, value: Bytes, flags: byte, f: Fields)
    requires FieldSizesFit(f) && |key| <= MAX_KEY_SIZE && |value| <= MAX_VALUE_SIZE
    requires var frame := V3Frame(key, value, flags, f);
      pos + |frame| <= |data| && data[pos..pos + |frame|] == frame
    ensures var size, at := |V3Frame(key, value, flags, f)|, pos + 8 + |key|;
      && at + |value| <= |data| && data[at..at + |value|] == value
      && ParseLegacy(data, pos, 3) == Parsed(
           LogRecord(key, at, |value|, pos, size, flags % 2 == 1, LegacyAttributes(f, flags / 2 % 2 == 1, 3)),
           pos + size)
    ensures var m := LegacyAttributes(f, flags / 2 % 2 == 1, 3);
      && m.Keys == {CATEGORY, PROVIDER, STATUS, NAME, TOTAL_SIZE, PROTOCOL, BAD, ADDED_ON}
      && m[CATEGORY] == f.category && m[PROVIDER] == f.provider && m[STATUS] == f.status && m[NAME] == f.name
      && m[TOTAL_SIZE] == FormatInt(f.totalSize) && m[PROTOCOL] == f.protocol && m[ADDED_ON] == FormatInt(f.addedOn)
      && m[BAD] == (if flags / 2 % 2 == 1 then TRUE else FALSE)
  {
    hide LegacyFrame, ParseLegacy, LegacyAttributes;
    ParseOfLegacyFrame(data, pos, key, value, flags, f, 3);
    LegacyNamed(f, flags / 2 % 2 == 1, 3);
  }

  // --------------------------------------------------------------- what is accepted

  lemma TextBytes(data: Bytes, pos: nat)
    requires pos <= |data| && TextAt(data, pos).Some?
    ensures var t := TextAt(data, pos).value; data[pos..t.next] == EncodeText(t.text)
  {
    hide LittleEndian, Number;
    LittleEndianOfNumber(data[pos..pos + 2]);
    var t := TextAt(data, pos).value;
    assert data[pos..t.next] == data[pos..pos + 2] + data[pos + 2..t.next];
  }

  lemma IntBytes(data: Bytes, pos: nat)
    requires pos <= |data| && IntAt(data, pos).Some?
    ensures data[pos..pos + 8] == EncodeInt(IntAt(data, pos).value)
  {
    hide LittleEndian, Number;
    RadixValues();
    LittleEndianOfNumber(data[pos..pos + 8]);
  }

  lemma JoinedFive(data: Bytes, i: nat, a: nat, b: nat, c: nat, d: nat, e: nat)
    requires i <= a <= b <= c <= d <= e <= |data|
    ensures data[i..a] + data[a..b] + data[b..c] + data[c..d] + data[d..e] == data[i..e]
  {
    Join(data, i, a, b);
    Join(data, i, b, c);
    Join(data, i, c, d);
    Join(data, i, d, e);
  }

  lemma CommonAreBytes(data: Bytes, pos: nat, version: nat)
    requires pos <= |data| && FieldsAt(data, pos, version).Some?
    ensures var r := FieldsAt(data, pos, version).value;
      && FieldSizesFit(r.fields) && pos + |EncodeCommon(r.fields)| <= |data|
      && data[pos..pos + |EncodeCommon(r.fields)|] == EncodeCommon(r.fields)
  {
    hide EncodeText, EncodeInt, TextAt, IntAt, FieldSizesFit;
    FieldsAtFit(data, pos, version);
    var a := TextAt(data, pos).value.next;
    var b := TextAt(data, a).value.next;
    var c := TextAt(data, b).value.next;
    var d := TextAt(data, c).value.next;
    TextBytes(data, pos);
    TextBytes(data, a);
    TextBytes(data, b);
    TextBytes(data, c);
    IntBytes(data, d);
    JoinedFive(data, pos, a, b, c, d, d + 8);
  }

  lemma FieldsAreBytes(data: Bytes, pos: nat, version: nat)
    requires pos <= |data| && FieldsAt(data, pos, version).Some?
    ensures var r := FieldsAt(data, pos, version).value;
      FieldSizesFit(r.fields) && data[pos..r.next] == FieldBytes(r.fields, version)
  {
    hide EncodeCommon, EncodeText, EncodeInt, TextAt, IntAt, FieldSizesFit;
    CommonAreBytes(data, pos, version);
    var r := FieldsAt(data, pos, version).value;
    var after := pos + |EncodeCommon(r.fields)|;
    CommonReadBack(data, pos, r.fields);
    if version >= 3 {
      var p := TextAt(data, after).value.next;
      TextBytes(data, after);
      IntBytes(data, p);
      Join(data, pos, after, p);
      Join(data, pos, p, p + 8);
    }
  }

  lemma FieldsAtFit(data: Bytes, pos: nat, version: nat)
    requires pos <= |data| && FieldsAt(data, pos, version).Some?
    ensures FieldSizesFit(FieldsAt(data, pos, version).value.fields)
  {
    hide TextAt, IntAt;
  }

  /** The bytes from `pos` to `next` are a record of the given parts. */
  predicate IsLegacyFrame(
    data: Bytes, pos: nat, next: nat, key: Bytes, value: Bytes, flags: byte, f: Fields, version: nat)
  {
    && FieldSizesFit(f) && |key| <= MAX_KEY_SIZE && |value| <= MAX_VALUE_SIZE
    && pos <= next <= |data| && data[pos..next] == LegacyFrame(key, value, flags, f, version)
  }

  /** The reader accepts exactly the frames: whatever it accepts is one. */
  lemma LegacyAcceptsIff(data: Bytes, pos: nat, version: nat)
    requires pos <= |data|
    ensures ParseLegacy(data, pos, version).Parsed? <==>
      exists next: nat, key: Bytes, value: Bytes, flags: byte, f: Fields ::
        IsLegacyFrame(data, pos, next, key, value, flags, f, version)
  {
    hide ParseLegacy, IsLegacyFrame;
    if ParseLegacy(data, pos, version).Parsed? {
      AcceptedIsFrame(data, pos, version);
    }
    forall next: nat, key: Bytes, value: Bytes, flags: byte, f: Fields
      | IsLegacyFrame(data, pos, next, key, value, flags, f, version)
      ensures ParseLegacy(data, pos, version).Parsed?
    {
      FrameIsAccepted(data, pos, next, key, value, flags, f, version);
    }
  }

  lemma FrameIsAccepted(
    data: Bytes, pos: nat, next: nat, key: Bytes, value: Bytes, flags: byte, f: Fields, version: nat)
    requires pos <= |data| && IsLegacyFrame(data, pos, next, key, value, flags, f, version)
    ensures ParseLegacy(data, pos, version).Parsed?
  {
    hide ParseLegacy, LegacyFrame, LegacyAttributes;
    ParseOfLegacyFrame(data, pos, key, value, flags, f, version);
  }

  lemma AcceptedIsFrame(data: Bytes, pos: nat, version: nat)
    requires pos <= |data| && ParseLegacy(data, pos, version).Parsed?
    ensures exists key: Bytes, value: Bytes, flags: byte, f: Fields ::
      IsLegacyFrame(data, pos, ParseLegacy(data, pos, version).next, key, value, flags, f, version)
  {
    hide LittleEndian, Number, FieldsAt, FieldBytes, LegacyAttributes, FieldSizesFit;
    var rec, next := ParseLegacy(data, pos, version).record, ParseLegacy(data, pos, version).next;
    var k := pos + 4 + |rec.key|;
    var at := rec.offset + rec.size;
    LittleEndianOfNumber(data[pos..pos + 4]);
    LittleEndianOfNumber(data[k..k + 4]);
    FieldsAreBytes(data, at + 1, version);
    var f := FieldsAt(data, at + 1, version).value.fields;
    var value := data[k + 4..at];
    assert data[at..at + 1] == [data[at]];
    JoinedFive(data, pos, pos + 4, k, k + 4, at, at + 1);
    Join(data, pos, at + 1, next);
    assert IsLegacyFrame(data, pos, next, rec.key, value, data[at], f, version);
  }

  // --------------------------------------------------------------- rewriting

  /** Every set of attributes a legacy record can carry is one the current writer accepts. */
  lemma LegacyIsAcceptable(f: Fields, bad: bool, version: nat)
    requires FieldSizesFit(f)
    ensures Acceptable(LegacyAttributes(f, bad, version))
  {
    hide LegacyAttributes, CATEGORY, PROVIDER, STATUS, NAME, TOTAL_SIZE, PROTOCOL, BAD, ADDED_ON;
    var m := LegacyAttributes(f, bad, version);
    LegacyNames(f, bad, version);
    CountAtMost8(m.Keys);
    forall name | name in m
      ensures PairFits(PairIn(m, name)) && SizeIn(m)(name) <= 0x1_0100
    {
      LegacyTexts(f, bad, version, name);
    }
    SumBounded(m.Keys, SizeIn(m), 0x1_0100);
  }

  lemma LegacyNames(f: Fields, bad: bool, version: nat)
    ensures LegacyAttributes(f, bad, version).Keys
         <= {CATEGORY, PROVIDER, STATUS, NAME, TOTAL_SIZE, PROTOCOL, BAD, ADDED_ON}
  {
    hide CATEGORY, PROVIDER, STATUS, NAME, TOTAL_SIZE, PROTOCOL, BAD, ADDED_ON, FormatInt;
  }

  lemma LegacyTexts(f: Fields, bad: bool, version: nat, name: Bytes)
    requires FieldSizesFit(f) && name in LegacyAttributes(f, bad, version)
    ensures 0 < |name| <= 10 && |LegacyAttributes(f, bad, version)[name]| < 0x1_0000
  {
    FieldNamesDistinct();
    FormatIntSize(f.totalSize);
    FormatIntSize(f.addedOn);
    hide CATEGORY, PROVIDER, STATUS, NAME, TOTAL_SIZE, PROTOCOL, BAD, ADDED_ON, FormatInt;
  }

  lemma CountAtMost8(s: set<Bytes>)
    requires s <= {CATEGORY, PROVIDER, STATUS, NAME, TOTAL_SIZE, PROTOCOL, BAD, ADDED_ON}
    ensures |s| <= 8
  {
    var all := {CATEGORY, PROVIDER, STATUS, NAME, TOTAL_SIZE, PROTOCOL, BAD, ADDED_ON};
    assert |all| <= 8;
    SubsetCount(s, all);
  }

  lemma {:induction false} SubsetCount(s: set<Bytes>, t: set<Bytes>)
    requires s <= t
    ensures |s| <= |t|
    decreases |s|
  {
    if s != {} {
      var x :| x in s;
      SubsetCount(s - {x}, t - {x});
    }
  }

  /** Every record the legacy reader accepts passes the limits of the current writer. */
  lemma LegacyIsRewritable(data: Bytes, pos: nat, version: nat)
    requires pos <= |data| && ParseLegacy(data, pos, version).Parsed?
    ensures var rec := ParseLegacy(data, pos, version).record;
      && |rec.key| <= MAX_KEY_SIZE && rec.size <= MAX_VALUE_SIZE && Acceptable(rec.attributes)
      && rec.offset + rec.size <= |data|
  {
    hide FieldsAt, LegacyAttributes, Acceptable, Number;
    var rec := ParseLegacy(data, pos, version).record;
    var at := rec.offset + rec.size;
    FieldsAtFit(data, at + 1, version);
    LegacyIsAcceptable(FieldsAt(data, at + 1, version).value.fields, data[at] / 2 % 2 == 1, version);
  }
}
