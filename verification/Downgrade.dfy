/**
 Writing the live records in an older format. Version 4 is the current format without extensions;
 version 3 has named fields, so a record is expressible only when its attributes fit those fields.
 */
module Downgrade {
  import opened Bytes
  import opened Order
  import opened Attributes
  import opened Decimal
  import opened Record
  import opened Legacy
  import opened Scan
  import opened LogMap
  import opened KeyOrder
  import opened Compaction
  import opened Log
  import Disk
  import Store
  import I = Index

  const V3_FIELDS: seq<Bytes> := [CATEGORY, PROVIDER, STATUS, NAME, TOTAL_SIZE, PROTOCOL, BAD, ADDED_ON]
  const V3_STRING_FIELDS: seq<Bytes> := [CATEGORY, PROVIDER, STATUS, NAME, PROTOCOL]

  /** An attribute, empty when missing. */
  function Attribute(m: Attributes, name: Bytes): Bytes {
    if name in m then m[name] else []
  }

  /** A number field: zero when missing or empty. */
  function V3Number(m: Attributes, name: Bytes): (r: Option<int>)
    ensures r.Some? ==> IsInt64(r.value)
  {
    if Attribute(m, name) == [] then Some(0) else ParseInt(Attribute(m, name))
  }

  /** The flag field: false when missing or empty. */
  function V3Flag(m: Attributes): Option<bool> {
    if Attribute(m, BAD) == [] then Some(false) else ParseBool(Attribute(m, BAD))
  }

  predicate NamesKnown(m: Attributes) {
    forall name :: name in m ==> name in V3_FIELDS
  }

  predicate TextsFit(m: Attributes) {
    forall i :: 0 <= i < |V3_STRING_FIELDS| ==> |Attribute(m, V3_STRING_FIELDS[i])| < 0x1_0000
  }

  function FieldsOf(m: Attributes, totalSize: int, addedOn: int): Fields {
    Fields(Attribute(m, CATEGORY), Attribute(m, PROVIDER), Attribute(m, STATUS), Attribute(m, NAME), totalSize,
           Attribute(m, PROTOCOL), addedOn)
  }

  lemma FieldsOfFit(m: Attributes, totalSize: int, addedOn: int)
    requires TextsFit(m) && IsInt64(totalSize) && IsInt64(addedOn)
    ensures FieldSizesFit(FieldsOf(m, totalSize, addedOn))
  {
    hide CATEGORY, PROVIDER, STATUS, NAME, PROTOCOL;
    assert V3_STRING_FIELDS[0] == CATEGORY && V3_STRING_FIELDS[1] == PROVIDER && V3_STRING_FIELDS[2] == STATUS;
    assert V3_STRING_FIELDS[3] == NAME && V3_STRING_FIELDS[4] == PROTOCOL;
  }

  /** One version 3 record, or `None` when version 3 cannot express it. */
  function EncodeV3(key: Bytes, value: Bytes, extensions: Bytes, m: Attributes): Option<Bytes> {
    if |extensions| > 0 || !NamesKnown(m) || !TextsFit(m) then None
    else
      var totalSize :- V3Number(m, TOTAL_SIZE);
      var addedOn :- V3Number(m, ADDED_ON);
      var bad :- V3Flag(m);
      FieldsOfFit(m, totalSize, addedOn);
      Some(V3Frame(key, value, if bad then 2 else 0, FieldsOf(m, totalSize, addedOn)))
  }

  // --------------------------------------------------------------- what version 3 can express

  /** The text is empty or a numeral of a 64-bit integer. */
  ghost predicate IsNumberText(t: Bytes) {
    t == [] || exists i: int, sign: Bytes, k: nat :: IsInt64(i) && Denotes(t, sign, k, i)
  }

  /** The text is empty or one of the spellings of a flag. */
  predicate IsFlagText(t: Bytes) {
    t == [] || IsTrueText(t) || IsFalseText(t)
  }

  ghost predicate Expressible(extensions: Bytes, m: Attributes) {
    && extensions == []
    && (forall name :: name in m ==> name in V3_FIELDS)
    && |Attribute(m, CATEGORY)| < 0x1_0000 && |Attribute(m, PROVIDER)| < 0x1_0000
    && |Attribute(m, STATUS)| < 0x1_0000 && |Attribute(m, NAME)| < 0x1_0000 && |Attribute(m, PROTOCOL)| < 0x1_0000
    && IsNumberText(Attribute(m, TOTAL_SIZE)) && IsNumberText(Attribute(m, ADDED_ON))
    && IsFlagText(Attribute(m, BAD))
  }

  lemma NumberTextIff(m: Attributes, name: Bytes)
    ensures V3Number(m, name).Some? <==> IsNumberText(Attribute(m, name))
  {
    hide ParseInt, Denotes;
    var t := Attribute(m, name);
    if V3Number(m, name).Some? && t != [] {
      ParseIntIff(t, ParseInt(t).value);
    }
    forall i: int, sign: Bytes, k: nat | IsInt64(i) && Denotes(t, sign, k, i)
      ensures ParseInt(t).Some?
    {
      ParseIntIff(t, i);
    }
  }

  lemma TextsFitIff(m: Attributes)
    ensures TextsFit(m) <==>
      && |Attribute(m, CATEGORY)| < 0x1_0000 && |Attribute(m, PROVIDER)| < 0x1_0000
      && |Attribute(m, STATUS)| < 0x1_0000 && |Attribute(m, NAME)| < 0x1_0000 && |Attribute(m, PROTOCOL)| < 0x1_0000
  {
    hide CATEGORY, PROVIDER, STATUS, NAME, PROTOCOL, Attribute;
    assert V3_STRING_FIELDS[0] == CATEGORY && V3_STRING_FIELDS[1] == PROVIDER && V3_STRING_FIELDS[2] == STATUS;
    assert V3_STRING_FIELDS[3] == NAME && V3_STRING_FIELDS[4] == PROTOCOL;
  }

  /** A record is accepted exactly when version 3 can express it. */
  lemma AcceptedIffExpressible(key: Bytes, value: Bytes, extensions: Bytes, m: Attributes)
    ensures EncodeV3(key, value, extensions, m).Some? <==> Expressible(extensions, m)
  {
    hide V3Number, TextsFit, IsNumberText, Attribute, V3Frame, V3_FIELDS, ParseBool, BAD, IsTrueText, IsFalseText;
    NumberTextIff(m, TOTAL_SIZE);
    NumberTextIff(m, ADDED_ON);
    TextsFitIff(m);
    ParseBoolIff(Attribute(m, BAD));
  }

  // --------------------------------------------------------------- the normal form

  function NumberOr0(m: Attributes, name: Bytes): int {
    match V3Number(m, name) case Some(i) => i case None => 0
  }

  function FlagOrFalse(m: Attributes): bool {
    match V3Flag(m) case Some(b) => b case None => false
  }

  /** What a record's attributes are after a trip through version 3. */
  function Normal(m: Attributes): Attributes {
    LegacyAttributes(FieldsOf(m, NumberOr0(m, TOTAL_SIZE), NumberOr0(m, ADDED_ON)), FlagOrFalse(m), 3)
  }

  /** Every accepted record is read back with its key and value, and its attributes in normal form. */
  lemma V3RoundTrip(data: Bytes, pos: nat, key: Bytes, value: Bytes, m: Attributes)
    requires |key| <= MAX_KEY_SIZE && |value| <= MAX_VALUE_SIZE && EncodeV3(key, value, [], m).Some?
    requires var frame := EncodeV3(key, value, [], m).value;
      pos + |frame| <= |data| && data[pos..pos + |frame|] == frame
    ensures var frame := EncodeV3(key, value, [], m).value;
      && pos + 8 + |key| + |value| <= |data| && data[pos + 8 + |key|..pos + 8 + |key| + |value|] == value
      && ParseLegacy(data, pos, 3)
         == Parsed(LogRecord(key, pos + 8 + |key|, |value|, pos, |frame|, false, Normal(m)), pos + |frame|)
  {
    hide V3Frame, LegacyAttributes, ParseLegacy, V3Number, FieldsOf, V3Flag, NamesKnown, TextsFit, TOTAL_SIZE, ADDED_ON;
    var totalSize, addedOn, bad := V3Number(m, TOTAL_SIZE).value, V3Number(m, ADDED_ON).value, V3Flag(m).value;
    FieldsOfFit(m, totalSize, addedOn);
    ParseOfV3Frame(data, pos, key, value, if bad then 2 else 0, FieldsOf(m, totalSize, addedOn));
  }

  /** The attributes of a normal form, one by one. */
  lemma NormalAt(m: Attributes)
    ensures var n := Normal(m);
      && Attribute(n, CATEGORY) == Attribute(m, CATEGORY) && Attribute(n, PROVIDER) == Attribute(m, PROVIDER)
      && Attribute(n, STATUS) == Attribute(m, STATUS) && Attribute(n, NAME) == Attribute(m, NAME)
      && Attribute(n, PROTOCOL) == Attribute(m, PROTOCOL)
      && Attribute(n, TOTAL_SIZE) == FormatInt(NumberOr0(m, TOTAL_SIZE))
      && Attribute(n, ADDED_ON) == FormatInt(NumberOr0(m, ADDED_ON))
      && Attribute(n, BAD) == FormatBool(FlagOrFalse(m))
      && NamesKnown(n)
  {
    FieldNamesDistinct();
    hide CATEGORY, PROVIDER, STATUS, NAME, TOTAL_SIZE, PROTOCOL, BAD, ADDED_ON, FormatInt, FormatBool, V3Number, V3Flag;
    assert V3_FIELDS[0] == CATEGORY && V3_FIELDS[1] == PROVIDER && V3_FIELDS[2] == STATUS && V3_FIELDS[3] == NAME;
    assert V3_FIELDS[4] == TOTAL_SIZE && V3_FIELDS[5] == PROTOCOL && V3_FIELDS[6] == BAD && V3_FIELDS[7] == ADDED_ON;
  }

  lemma NumberMeans(m: Attributes, name: Bytes)
    ensures Attribute(m, name) == [] ==> FormatInt(NumberOr0(m, name)) == [48]
    ensures forall i: int, sign: Bytes, k: nat :: IsInt64(i) && Denotes(Attribute(m, name), sign, k, i) ==>
      NumberOr0(m, name) == i
  {
    hide ParseInt, Denotes;
    forall i: int, sign: Bytes, k: nat | IsInt64(i) && Denotes(Attribute(m, name), sign, k, i)
      ensures NumberOr0(m, name) == i
    {
      ParseIntIff(Attribute(m, name), i);
      assert Attribute(m, name) != [] by { NumeralNotEmpty(Attribute(m, name), sign, k, i); }
    }
  }

  lemma NumeralNotEmpty(s: Bytes, sign: Bytes, k: nat, i: int)
    requires Denotes(s, sign, k, i)
    ensures s != []
  {
    hide FormatNat;
  }

  /**
   What a trip through version 3 makes of a record's attributes: exactly the eight names, the texts as they
   were or empty, the numbers they denote in their shortest form or 0, and the flag spelled out.
   */
  lemma NormalMeans(m: Attributes)
    ensures var n := Normal(m);
      && n.Keys == {CATEGORY, PROVIDER, STATUS, NAME, TOTAL_SIZE, PROTOCOL, BAD, ADDED_ON}
      && n[CATEGORY] == Attribute(m, CATEGORY) && n[PROVIDER] == Attribute(m, PROVIDER)
      && n[STATUS] == Attribute(m, STATUS) && n[NAME] == Attribute(m, NAME) && n[PROTOCOL] == Attribute(m, PROTOCOL)
      && (Attribute(m, TOTAL_SIZE) == [] ==> n[TOTAL_SIZE] == [48])
      && (forall i: int, sign: Bytes, k: nat :: IsInt64(i) && Denotes(Attribute(m, TOTAL_SIZE), sign, k, i) ==>
            n[TOTAL_SIZE] == FormatInt(i))
      && (Attribute(m, ADDED_ON) == [] ==> n[ADDED_ON] == [48])
      && (forall i: int, sign: Bytes, k: nat :: IsInt64(i) && Denotes(Attribute(m, ADDED_ON), sign, k, i) ==>
            n[ADDED_ON] == FormatInt(i))
      && n[BAD] == (if IsTrueText(Attribute(m, BAD)) then [116, 114, 117, 101] else [102, 97, 108, 115, 101])
  {
    hide LegacyAttributes, Attribute, NumberOr0, FormatInt, Denotes, CATEGORY, PROVIDER, STATUS, NAME, TOTAL_SIZE, PROTOCOL, BAD, ADDED_ON, ParseBool, IsTrueText, IsFalseText;
    LegacyNamed(FieldsOf(m, NumberOr0(m, TOTAL_SIZE), NumberOr0(m, ADDED_ON)), FlagOrFalse(m), 3);
    NumberMeans(m, TOTAL_SIZE);
    NumberMeans(m, ADDED_ON);
    ParseBoolIff(Attribute(m, BAD));
    NotTrueEmpty();
  }

  lemma NotTrueEmpty()
    ensures !IsTrueText([])
  {
  }

  lemma NormalNumbers(m: Attributes)
    ensures V3Number(Normal(m), TOTAL_SIZE) == Some(NumberOr0(m, TOTAL_SIZE))
    ensures V3Number(Normal(m), ADDED_ON) == Some(NumberOr0(m, ADDED_ON))
    ensures V3Flag(Normal(m)) == Some(FlagOrFalse(m))
  {
    hide Normal, FormatInt, ParseInt, FormatBool, ParseBool, Attribute, TOTAL_SIZE, ADDED_ON, BAD;
    NormalAt(m);
    ParseOfFormat(NumberOr0(m, TOTAL_SIZE));
    ParseOfFormat(NumberOr0(m, ADDED_ON));
    ParseOfFormatBool(FlagOrFalse(m));
  }

  /** Normalizing twice changes nothing more. */
  lemma NormalIdempotent(m: Attributes)
    ensures Normal(Normal(m)) == Normal(m)
  {
    hide LegacyAttributes, V3Number, V3Flag, Attribute, CATEGORY, PROVIDER, STATUS, NAME, TOTAL_SIZE, PROTOCOL, BAD, ADDED_ON;
    NormalAt(m);
    NormalNumbers(m);
  }

  /** The normal form of an accepted record is accepted again. */
  lemma NormalAccepted(key: Bytes, value: Bytes, m: Attributes)
    requires EncodeV3(key, value, [], m).Some?
    ensures EncodeV3(key, value, [], Normal(m)).Some?
  {
    hide Normal, V3Number, V3Flag, Attribute, V3Frame, NamesKnown, FieldsOf, CATEGORY, PROVIDER, STATUS, NAME, TOTAL_SIZE, PROTOCOL, BAD, ADDED_ON, TextsFit;
    NormalAt(m);
    NormalNumbers(m);
    TextsFitIff(m);
    TextsFitIff(Normal(m));
  }

  // --------------------------------------------------------------- whole logs

  const V3_HEADER: Bytes := HeaderBytes(Header(3, 0, 0))

  ghost predicate AllExpressible(items: Items) {
    forall k :: k in items ==> Expressible(items[k].extensions, items[k].attributes)
  }

  /** The items as version 3 holds them. */
  function NormalItems(items: Items): Items {
    map k | k in items :: Item(items[k].value, Normal(items[k].attributes), [])
  }

  /** The version 3 log of the given keys, or `None` when one of them is not expressible. */
  function WriteV3(items: Items, keys: seq<Bytes>): Option<Bytes>
    requires forall k :: k in keys ==> k in items
  {
    if |keys| == 0 then Some(V3_HEADER)
    else
      var k := keys[|keys| - 1];
      var log :- WriteV3(items, keys[..|keys| - 1]);
      var frame :- EncodeV3(k, items[k].value, items[k].extensions, items[k].attributes);
      Some(log + frame)
  }

  lemma V3HeaderScans()
    ensures |V3_HEADER| == HEADER_SIZE && ReadHeader(V3_HEADER) == Readable(Header(3, 0, 0))
    ensures ScanLog(V3_HEADER, 3).outcome == Done && Contents(V3_HEADER, 3) == map[]
  {
    hide LittleEndian;
    HeaderReadBack(Header(3, 0, 0), []);
    assert V3_HEADER + [] == V3_HEADER;
  }

  lemma {:induction false} WriteV3Iff(items: Items, keys: seq<Bytes>)
    requires forall k :: k in keys ==> k in items
    ensures WriteV3(items, keys).Some? <==> forall k :: k in keys ==> Expressible(items[k].extensions, items[k].attributes)
  {
    hide EncodeV3, Expressible, V3_HEADER;
    if |keys| > 0 {
      var init, k := keys[..|keys| - 1], keys[|keys| - 1];
      WriteV3Iff(items, init);
      AcceptedIffExpressible(k, items[k].value, items[k].extensions, items[k].attributes);
      assert keys == init + [k];
    }
  }

  /** A version 3 log reads back as exactly the normal forms of what was written. */
  lemma {:induction false} WriteV3Scans(items: Items, keys: seq<Bytes>)
    requires Writable(items) && (forall k :: k in keys ==> k in items) && WriteV3(items, keys).Some?
    ensures var log := WriteV3(items, keys).value;
      && |log| >= HEADER_SIZE && log[..HEADER_SIZE] == V3_HEADER
      && ScanLog(log, 3).outcome == Done
      && Contents(log, 3) == Restrict(NormalItems(items), keys)
  {
    hide EncodeV3, V3_HEADER, ScanLog, Contents, Normal, AppendAccepts, Restrict, NormalItems, ParseLegacy, FileIndex;
    if |keys| == 0 {
      V3HeaderScans();
      assert V3_HEADER[..HEADER_SIZE] == V3_HEADER;
      RestrictNothing(NormalItems(items));
    } else {
      var init, k := keys[..|keys| - 1], keys[|keys| - 1];
      assert keys == init + [k];
      WriteV3Scans(items, init);
      var log, item := WriteV3(items, init).value, items[k];
      var frame := EncodeV3(k, item.value, item.extensions, item.attributes).value;
      PrefixOfConcat(log, frame, HEADER_SIZE);
      AppendV3(log, k, item);
      NormalItemsAt(items, k);
      RestrictSnoc(NormalItems(items), init, k);
    }
  }

  lemma NormalItemsAt(items: Items, k: Bytes)
    requires k in items
    ensures k in NormalItems(items)
    ensures NormalItems(items)[k] == Item(items[k].value, Normal(items[k].attributes), [])
  {
  }

  lemma AppendV3(log: Bytes, k: Bytes, item: Item)
    requires |log| >= HEADER_SIZE && ScanLog(log, 3).outcome == Done
    requires AppendAccepts(k, item.value, item.attributes, item.extensions)
    requires EncodeV3(k, item.value, item.extensions, item.attributes).Some?
    ensures var log' := log + EncodeV3(k, item.value, item.extensions, item.attributes).value;
      && ScanLog(log', 3).outcome == Done
      && Contents(log', 3) == ApplyItem(Contents(log, 3), k, false, Item(item.value, Normal(item.attributes), []))
  {
    hide ScanLog, Contents, Normal, ParseLegacy, FileIndex, V3Frame, NamesKnown, TextsFit, V3Number, V3Flag, Acceptable;
    var frame := EncodeV3(k, item.value, item.extensions, item.attributes).value;
    var log' := log + frame;
    assert item.extensions == [];
    assert log'[|log|..|log| + |frame|] == frame;
    V3RoundTrip(log', |log|, k, item.value, item.attributes);
    RecordRefines(log, frame, ParseLegacy(log', |log|, 3).record, 3);
  }

  /** The version 3 log of a file's live records. */
  ghost function DowngradeV3(file: Bytes, version: nat): Option<Bytes>
    requires |file| >= HEADER_SIZE
  {
    WriteV3(Contents(file, version), LiveKeys(file, version))
  }

  /**
   Downgrading to version 3 succeeds exactly when every live record is expressible, and the result
   opens as a version 3 log with the same keys and values and the attributes in normal form.
   */
  lemma DowngradeV3Correct(file: Bytes, version: nat)
    requires |file| >= HEADER_SIZE
    ensures DowngradeV3(file, version).Some? <==> AllExpressible(Contents(file, version))
    ensures DowngradeV3(file, version).Some? ==>
      var log := DowngradeV3(file, version).value;
      && |log| >= HEADER_SIZE && ReadHeader(log) == Readable(Header(3, 0, 0))
      && ScanLog(log, 3).outcome == Done
      && Contents(log, 3) == NormalItems(Contents(file, version))
  {
    hide WriteV3, Contents, LiveKeys, Expressible, V3_HEADER, ScanLog, NormalItems, Restrict, ReadHeader, NoRepeats, IsOffsetOrder, Writable;
    var items, keys := Contents(file, version), LiveKeys(file, version);
    WriteV3Iff(items, keys);
    if DowngradeV3(file, version).Some? {
      ContentsWritable(file, version);
      WriteV3Scans(items, keys);
      NormalItemsKeys(items);
      RestrictAll(NormalItems(items), keys);
      V3HeaderScans();
      var log := DowngradeV3(file, version).value;
      assert V3_HEADER[..HEADER_SIZE] == V3_HEADER;
      HeaderLocal(log, V3_HEADER);
    }
  }

  lemma NormalItemsKeys(items: Items)
    ensures forall k :: k in NormalItems(items) <==> k in items
  {
  }

  /** The version 4 log of a file's live records, or `None` when one carries extensions. */
  ghost function DowngradeV4(file: Bytes, version: nat): Option<Bytes>
    requires |file| >= HEADER_SIZE
  {
    if forall k :: k in Contents(file, version) ==> Contents(file, version)[k].extensions == []
    then CompactionPreserves(file, version); Some(V4_HEADER + CompactFile(file, version)[HEADER_SIZE..])
    else None
  }

  /**
   Downgrading to version 4 succeeds exactly when no live record carries extensions, and the result
   opens as a version 4 log with exactly the same contents.
   */
  lemma DowngradeV4Correct(file: Bytes, version: nat)
    requires |file| >= HEADER_SIZE
    ensures DowngradeV4(file, version).Some? <==>
      forall k :: k in Contents(file, version) ==> Contents(file, version)[k].extensions == []
    ensures DowngradeV4(file, version).Some? ==>
      var log := DowngradeV4(file, version).value;
      && |log| >= HEADER_SIZE && ReadHeader(log) == Readable(Header(4, 0, 0))
      && ScanLog(log, 4).outcome == Done
      && Contents(log, 4) == Contents(file, version)
  {
    hide Contents, LiveKeys, CompactFile, ScanLog, ReadHeader, TotalSize, HeaderBytes, FileIndex;
    CompactionPreserves(file, version);
    var compacted := CompactFile(file, version);
    var body := compacted[HEADER_SIZE..];
    var log := V4_HEADER + body;
    HeaderReadBack(Header(4, 0, 0), body);
    assert log[HEADER_SIZE..] == body;
    ContentsIgnoreHeader(compacted, log, LOG_VERSION, 4);
  }

  // --------------------------------------------------------------- the procedures

  /** Encodes one version 3 record, or reports that the format cannot express it. */
  method EncodeV3Record(key: Bytes, value: Bytes, extensions: Bytes, m: Attributes) returns (r: Option<Bytes>)
    ensures r == EncodeV3(key, value, extensions, m)
  {
    hide V3Number, LittleEndian, V3_FIELDS, ParseBool, BAD;
    if |extensions| > 0 {
      return None;
    }
    var rest := m.Keys;
    while rest != {}
      invariant rest <= m.Keys
      invariant forall name :: name in m && name !in rest ==> name in V3_FIELDS
    {
      var name :| name in rest;
      if name !in V3_FIELDS {
        return None;
      }
      rest := rest - {name};
    }
    for i := 0 to |V3_STRING_FIELDS|
      invariant forall j :: 0 <= j < i ==> |Attribute(m, V3_STRING_FIELDS[j])| < 0x1_0000
    {
      if |Attribute(m, V3_STRING_FIELDS[i])| > 0xFFFF {
        return None;
      }
    }
    var totalSize := V3Number(m, TOTAL_SIZE);
    if totalSize.None? {
      return None;
    }
    var addedOn := V3Number(m, ADDED_ON);
    if addedOn.None? {
      return None;
    }
    var flags: byte := 0;
    var raw := Attribute(m, BAD);
    if raw != [] {
      var bad := ParseBool(raw);
      if bad.None? {
        return None;
      }
      if bad.value {
        flags := 2;
      }
    }
    FieldsOfFit(m, totalSize.value, addedOn.value);
    var buf := LittleEndian(|key|, 4);
    buf := buf + key;
    buf := buf + LittleEndian(|value|, 4);
    buf := buf + value;
    buf := buf + [flags];
    var fields := EncodeFields(FieldsOf(m, totalSize.value, addedOn.value));
    return Some(buf + fields);
  }

  /** The index of a scan's records. */
  method LiveIndex(records: seq<LogRecord>) returns (live: I.Index)
    ensures fresh(live) && live.Valid() && live.entries == IndexOf(records)
  {
    hide I.Agree;
    live := new I.Index([]);
    assert records[..0] == [];
    for i := 0 to |records|
      invariant fresh(live) && live.Valid() && live.entries == IndexOf(records[..i])
    {
      IndexOfSnoc(records[..i], records[i]);
      assert records[..i + 1] == records[..i] + [records[i]];
      if records[i].deleted {
        live.Delete(records[i].key);
      } else {
        live.Put(records[i].key, EntryOf(records[i]));
      }
    }
    assert records[..|records|] == records;
  }

  /** The log was opened and scanned, and `live` is its index. */
  ghost predicate Scanned(log: AppendLog, live: I.Index)
    reads log, live
  {
    && log.Valid() && live.Valid() && log.writePos == |log.file| && log.version >= 4
    && live.entries == FileIndex(log.file, log.version)
  }

  method ReadLive(log: AppendLog, live: I.Index, key: Bytes) returns (areas: Areas)
    requires Scanned(log, live) && key in live.entries
    ensures key in Contents(log.file, log.version)
    ensures var item := Contents(log.file, log.version)[key];
      areas == Areas(item.value, item.extensions) && item.attributes == live.entries[key].attributes
  {
    hide FileIndex, Contents, AreasAt, I.Agree;
    Store.LiveIsReadable(log.file, log.version, key);
    var read := log.ReadAreas(live.entries[key].recordOffset, live.entries[key].storedSize);
    return read.value;
  }

  method LiveKeysOf(log: AppendLog, live: I.Index) returns (keys: seq<Bytes>)
    requires Scanned(log, live)
    modifies live`sortedKeys, live`sortedDirty
    ensures Scanned(log, live) && keys == LiveKeys(log.file, log.version)
    ensures forall k :: k in keys ==> k in live.entries
  {
    hide FileIndex, LiveKeys, KeysByOffset, DistinctOffsets, I.Agree;
    IndexDistinct(log.file, log.version);
    keys := live.KeysSortedByOffset();
    OffsetOrderUnique(live.entries, keys, LiveKeys(log.file, log.version));
  }

  /** Writes the live records in version 3 format. */
  method WriteV3Log(log: AppendLog, live: I.Index) returns (out: Option<Bytes>)
    requires Scanned(log, live)
    modifies live`sortedKeys, live`sortedDirty
    ensures out == DowngradeV3(log.file, log.version)
  {
    hide FileIndex, Contents, LiveKeys, EncodeV3, V3_HEADER, I.Agree, NoRepeats, IsOffsetOrder;
    var keys := LiveKeysOf(log, live);
    ghost var items := Contents(log.file, log.version);
    var bytes := V3_HEADER;
    assert keys[..0] == [];
    for i := 0 to |keys|
      invariant Scanned(log, live)
      invariant forall k :: k in keys[..i] ==> k in items
      invariant WriteV3(items, keys[..i]) == Some(bytes)
    {
      assert keys[i] in keys;
      assert keys[..i + 1][..i] == keys[..i];
      var areas := ReadLive(log, live, keys[i]);
      var record := EncodeV3Record(keys[i], areas.value, areas.extensions, live.entries[keys[i]].attributes);
      if record.None? {
        WriteV3Fails(items, keys, i + 1);
        return None;
      }
      bytes := bytes + record.value;
    }
    assert keys[..|keys|] == keys;
    return Some(bytes);
  }

  lemma {:induction false} WriteV3Fails(items: Items, keys: seq<Bytes>, i: nat)
    requires i <= |keys| && (forall k :: k in keys ==> k in items)
    requires forall k :: k in keys[..i] ==> k in items
    requires WriteV3(items, keys[..i]).None?
    ensures WriteV3(items, keys).None?
    decreases |keys|
  {
    hide EncodeV3, V3_HEADER;
    if i < |keys| {
      assert keys[..|keys| - 1][..i] == keys[..i];
      WriteV3Fails(items, keys[..|keys| - 1], i);
    } else {
      assert keys[..i] == keys;
    }
  }

  /** Writes the live records with the current writer and then marks the log as version 4. */
  method WriteV4Log(log: AppendLog, live: I.Index) returns (r: Option<Bytes>)
    requires Scanned(log, live)
    modifies live`sortedKeys, live`sortedDirty
    ensures r == DowngradeV4(log.file, log.version)
  {
    hide FileIndex, Contents, LiveKeys, AppendBytes, AppendAccepts, EMPTY_LOG, Rewrite, EncodeBlock, I.Agree, Overlay, NoRepeats, IsOffsetOrder, HeaderBytes, ScanLog;
    var out := new AppendLog();
    var keys := LiveKeysOf(log, live);
    ghost var items := Contents(log.file, log.version);
    ContentsWritable(log.file, log.version);
    Store.StartRewrite(items, keys);
    for i := 0 to |keys|
      invariant Scanned(log, live) && fresh(out) && fresh(out.appendBuf) && out.Valid()
      invariant out.version == LOG_VERSION && out.readOnly == 0 && out.writePos == |out.file|
      invariant forall k :: k in keys[..i] ==> k in items
      invariant out.file == Rewrite(items, keys[..i])
      invariant forall k :: k in keys[..i] ==> items[k].extensions == []
    {
      var key := keys[i];
      assert key in keys;
      var areas := ReadLive(log, live, key);
      if |areas.extensions| > 0 {
        return None;
      }
      Store.StepRewrite(items, keys, i);
      OverlaySize(out.file, |out.file|, AppendBytes(key, items[key].value, false, items[key].attributes, []));
      assert AppendAccepts(key, items[key].value, items[key].attributes, []);
      var a := out.Append(key, areas.value, false, live.entries[key].attributes, [], Environment(None, true, 0, false));
      assert keys[..i + 1] == keys[..i] + [key];
    }
    assert keys[..|keys|] == keys;
    CompactionPreserves(log.file, log.version);
    out.SetVersion(4);
    return Some(out.file);
  }

  /** What opening makes of the source: a missing or empty file becomes an empty log. */
  function AsOpened(src: Bytes): Bytes {
    if |src| == 0 then EMPTY_LOG else src
  }

  /** The header of the source does not rule a downgrade out. */
  predicate HeaderAllows(file: Bytes) {
    && |file| >= HEADER_SIZE && ReadHeader(file).Readable?
    && ReadHeader(file).header.version >= 4 && ReadHeader(file).header.readOnly == 0
  }

  /** The log the downgrade of a whole file writes, if the file can be read and its records expressed. */
  ghost function Translation(file: Bytes, target: nat): Option<Bytes>
    requires HeaderAllows(file)
  {
    var version := ReadHeader(file).header.version;
    if ScanLog(file, version).outcome == Corrupt then None
    else if target == 3 then DowngradeV3(file, version)
    else DowngradeV4(file, version)
  }

  /** What the downgrade leaves at the source: without its torn tail, once it is scanned. */
  function SourceAfter(file: Bytes): Bytes {
    if HeaderAllows(file) && ScanLog(file, ReadHeader(file).header.version).outcome == Torn
    then file[..ScanLog(file, ReadHeader(file).header.version).end]
    else file
  }

  /** A repaired log downgrades as the log did before its repair. */
  lemma RepairTranslates(file: Bytes, version: nat)
    requires |file| >= HEADER_SIZE
    ensures var n := ScanLog(file, version).end;
      && n >= HEADER_SIZE
      && DowngradeV3(file[..n], version) == DowngradeV3(file, version)
      && DowngradeV4(file[..n], version) == DowngradeV4(file, version)
  {
    hide ScanFrom, FileIndex, Contents, WriteV3, Rewrite, V4_HEADER, IsOffsetOrder, NoRepeats;
    RepairPreserves(file, version);
    var repaired := file[..ScanLog(file, version).end];
    OffsetOrderUnique(FileIndex(file, version), LiveKeys(repaired, version), LiveKeys(file, version));
  }

  /** When there is a translation, and what it opens as, in terms of the source's contents. */
  lemma TranslationCorrect(file: Bytes, target: nat)
    requires HeaderAllows(file) && (target == 3 || target == 4)
    ensures var version := ReadHeader(file).header.version;
      && (Translation(file, target).Some? <==>
          && ScanLog(file, version).outcome != Corrupt
          && forall k :: k in Contents(file, version) ==>
               if target == 3 then Expressible(Contents(file, version)[k].extensions, Contents(file, version)[k].attributes)
               else Contents(file, version)[k].extensions == [])
      && (Translation(file, target).Some? ==>
          && Opens(Translation(file, target).value, target)
          && Contents(Translation(file, target).value, target)
             == if target == 3 then NormalItems(Contents(file, version)) else Contents(file, version))
  {
    hide DowngradeV3, DowngradeV4, ScanLog, ReadHeader, Contents, Expressible, NormalItems;
    DowngradeV3Correct(file, ReadHeader(file).header.version);
    DowngradeV4Correct(file, ReadHeader(file).header.version);
  }

  /** The file is a log of this version, without features, that scans cleanly. */
  predicate Opens(file: Bytes, version: nat) {
    && |file| >= HEADER_SIZE && ReadHeader(file) == Readable(Header(version, 0, 0))
    && ScanLog(file, version).outcome == Done
  }

  /** Scans the log, which drops a torn tail, and writes its live records in the target format. */
  method Translate(log: AppendLog, target: nat) returns (out: Option<Bytes>)
    requires log.Valid() && log.writePos == |log.file| && log.version >= 4 && log.readOnly == 0
    requires target == 3 || target == 4
    modifies log`file, log`writePos
    ensures var file, s := old(log.file), ScanLog(old(log.file), log.version);
      && log.file == (if s.outcome == Torn then file[..s.end] else file)
      && out == (if s.outcome == Corrupt then None
                 else if target == 3 then DowngradeV3(file, log.version) else DowngradeV4(file, log.version))
  {
    hide ScanFrom, IndexOf, I.Agree, DowngradeV3, DowngradeV4;
    ghost var file := log.file;
    RepairPreserves(log.file, log.version);
    RepairTranslates(log.file, log.version);
    var records, outcome := log.Iterate();
    if outcome == Corrupt {
      return None;
    }
    assert log.file == file[..ScanLog(file, log.version).end];
    var live := LiveIndex(records);
    if target == 3 {
      out := WriteV3Log(log, live);
    } else {
      out := WriteV4Log(log, live);
    }
  }

  /**
   Downgrades the log at `src` into `dst`: exactly when the target is known, the destination may be
   written, the source can be read and every live record has a form in the target. The destination
   changes only then.
   */
  method Downgrade(src: Bytes, dst: Option<Bytes>, target: nat, overwrite: bool)
    returns (ok: bool, src': Bytes, dst': Option<Bytes>)
    ensures var file, allowed := AsOpened(src), (target == 3 || target == 4) && (overwrite || dst.None?);
      && (ok <==> allowed && HeaderAllows(file) && Translation(file, target).Some?)
      && dst' == (if ok then Translation(file, target) else dst)
      && src' == (if allowed && ReadHeader(file).Readable? then SourceAfter(file) else src)
    ensures var file := AsOpened(src);
      ok <==>
        && (target == 3 || target == 4) && (overwrite || dst.None?)
        && |file| >= HEADER_SIZE && ReadHeader(file).Readable?
        && var header := ReadHeader(file).header;
        && header.version >= 4 && header.readOnly == 0 && ScanLog(file, header.version).outcome != Corrupt
        && var items := Contents(file, header.version);
           forall k :: k in items ==>
             if target == 3 then Expressible(items[k].extensions, items[k].attributes) else items[k].extensions == []
    ensures var file := AsOpened(src);
      src' ==
        if (target != 3 && target != 4) || (!overwrite && dst.Some?) || !ReadHeader(file).Readable? then src
        else if |file| >= HEADER_SIZE && ReadHeader(file).header.version >= 4 && ReadHeader(file).header.readOnly == 0
                && ScanLog(file, ReadHeader(file).header.version).outcome == Torn
        then file[..ScanLog(file, ReadHeader(file).header.version).end]
        else file
    ensures !ok ==> dst' == dst
    ensures ok ==>
      var file := AsOpened(src);
      && |file| >= HEADER_SIZE && ReadHeader(file).Readable? && dst'.Some? && Opens(dst'.value, target)
      && var items := Contents(file, ReadHeader(file).header.version);
         Contents(dst'.value, target) == if target == 3 then NormalItems(items) else items
  {
    hide ReadHeader, ScanLog, Contents, DowngradeV3, DowngradeV4, EMPTY_LOG, Expressible, NormalItems, Opens;
    src', dst', ok := src, dst, false;
    ghost var source := AsOpened(src);
    if HeaderAllows(source) && (target == 3 || target == 4) {
      TranslationCorrect(source, target);
    }
    if target != 3 && target != 4 {
      return;
    }
    if !overwrite && dst.Some? {
      return;
    }
    EmptyLogScans();
    var header, log := OpenLog(src);
    if log == null {
      return;
    }
    src' := log.file;
    if log.version < 4 || log.readOnly != 0 {
      return;
    }
    var written := Translate(log, target);
    src' := log.file;
    ok := written.Some?;
    if ok {
      dst' := written;
    }
  }

  /** The log a recovery of the directory would make the database; none is an empty one. */
  function Surviving(files: Disk.Files): Bytes {
    match Disk.Target(files) case Some(t) => t case None => []
  }

  /** The directory after a downgrade that got as far as opening the source, whatever came of it. */
  function DirectoryAfter(files: Disk.Files): Disk.Files {
    Disk.Cleaned(files)[Disk.Main := SourceAfter(AsOpened(Surviving(files)))]
  }

  /**
   Downgrades the database of a directory: recovers it from an interrupted compaction, translates its
   log, and renames the result into place. A failure, of the last rename too, leaves the destination
   as it was.
   */
  method DowngradeDatabase(d: Disk.Directory, dst: Option<Bytes>, target: nat, overwrite: bool, renameFails: bool)
    returns (ok: bool, dst': Option<Bytes>)
    modifies d
    ensures var file, allowed := AsOpened(Surviving(old(d.files))), (target == 3 || target == 4) && (overwrite || dst.None?);
      && (ok <==> allowed && HeaderAllows(file) && Translation(file, target).Some? && !renameFails)
      && dst' == (if ok then Translation(file, target) else dst)
      && d.files == (if allowed then DirectoryAfter(old(d.files)) else old(d.files))
  {
    hide ReadHeader, Translation, EMPTY_LOG, Disk.Target, ScanLog;
    if (target != 3 && target != 4) || (!overwrite && dst.Some?) {
      return false, dst;
    }
    Disk.RecoverCompactionArtifacts(d);
    var src := if Disk.Main in d.files then d.files[Disk.Main] else [];
    assert ReadHeader(EMPTY_LOG).Readable? by { EmptyLogScans(); }
    var src';
    ok, src', dst' := Downgrade(src, dst, target, overwrite);
    d.files := d.files[Disk.Main := src'];
    if ok && renameFails {
      return false, dst;
    }
  }

  // --------------------------------------------------------------- what is written to the source

  /** The only thing that changed is that the main log lost a torn tail, if it had one. */
  predicate OnlyRepaired(files: Disk.Files, after: Disk.Files) {
    Disk.Main in files && after == files[Disk.Main := SourceAfter(files[Disk.Main])]
  }

  /**
   A downgrade writes to the source's directory only to drop a torn tail if and only if there is a
   main log, it is not empty, and nothing is left of a compaction.
   */
  lemma OnlyRepairedIff(files: Disk.Files)
    ensures OnlyRepaired(files, DirectoryAfter(files)) <==>
      Disk.Main in files && files[Disk.Main] != [] && Disk.NoArtifacts(files)
  {
    hide SourceAfter, EMPTY_LOG;
    EmptyIsKept();
    var after := DirectoryAfter(files);
    if OnlyRepaired(files, after) {
      assert forall name :: name in after <==> name in files;
      assert Disk.NoArtifacts(after);
    }
  }

  lemma EmptyIsKept()
    ensures SourceAfter(EMPTY_LOG) == EMPTY_LOG != [] && SourceAfter([]) == []
  {
    hide EMPTY_LOG, ReadHeader, ScanFrom;
    EmptyLogScans();
  }

  /** It creates a log where there was none. */
  lemma CreatesSource()
    ensures DirectoryAfter(map[]) == map[Disk.Main := EMPTY_LOG] && !OnlyRepaired(map[], DirectoryAfter(map[]))
  {
    hide SourceAfter, EMPTY_LOG;
    EmptyIsKept();
  }

  /** It moves what an interrupted compaction left into the main place. */
  lemma MovesBackup(log: Bytes)
    ensures var files := map[Disk.Backup := log];
      && DirectoryAfter(files) == map[Disk.Main := SourceAfter(AsOpened(log))]
      && !OnlyRepaired(files, DirectoryAfter(files))
  {
    hide SourceAfter, EMPTY_LOG;
  }
}
