/**
 What the bytes of a database file mean to an open, whatever version they are in: the facts about
 appends, torn appends, repairs, compactions and header upgrades that the crash protocols rest on.
 */
module FileMeaning {
  import opened Bytes
  import opened Attributes
  import opened Record
  import opened Scan
  import opened LogMap
  import opened Compaction
  import opened Store

  /** The format version an open of this file would find; an empty file becomes a current log. */
  function VersionOf(file: Bytes): nat {
    match ReadHeader(file) case Readable(h) => h.version case _ => LOG_VERSION
  }

  /** The log asks not to be written. */
  predicate IsReadOnly(file: Bytes) {
    ReadHeader(file).Readable? && ReadHeader(file).header.readOnly != 0
  }

  /** A current, writable log without a torn tail: what a running store appends to. */
  predicate Serving(file: Bytes) {
    && |file| >= HEADER_SIZE
    && ReadHeader(file) == Readable(Header(LOG_VERSION, 0, 0))
    && ScanLog(file, LOG_VERSION).outcome == Done
  }

  /** The file after its scan: without its torn tail, unless a read-only log forbids the repair. */
  function Repaired(file: Bytes): Bytes {
    if |file| >= HEADER_SIZE && ReadHeader(file).Readable? && ReadHeader(file).header.readOnly == 0
    then file[..ScanLog(file, ReadHeader(file).header.version).end] else file
  }

  /** A file is opened in the version its header says; only version 5 can ask not to be written. */
  lemma OpensAs(h: Header, rest: Bytes)
    requires HeaderFits(h) && 1 <= h.version <= LOG_VERSION && (h.version == 5 ==> h.incompatible == 0)
    ensures VersionOf(HeaderBytes(h) + rest) == h.version
    ensures IsReadOnly(HeaderBytes(h) + rest) <==> h.version == 5 && h.readOnly != 0
  {
    hide ReadHeader, HeaderBytes;
    HeaderWritten(h, rest);
  }

  lemma ServingIsGood(file: Bytes)
    requires Serving(file)
    ensures Good(file) && VersionOf(file) == LOG_VERSION && !IsReadOnly(file) && Repaired(file) == file
    ensures Meaning(file) == Contents(file, LOG_VERSION)
  {
    hide ScanFrom, Contents;
    assert file[..|file|] == file;
  }

  lemma EmptyLogServes()
    ensures Serving(EMPTY_LOG) && Meaning(EMPTY_LOG) == map[] && Good([]) && Meaning([]) == map[]
    ensures VersionOf([]) == LOG_VERSION && !IsReadOnly([])
  {
    hide ScanLog, Contents, EMPTY_LOG;
    EmptyOpens();
    assert !ReadHeader([]).Readable?;
  }

  /** A completed append serves, and means the operation. */
  lemma AppendServes(file: Bytes, key: Bytes, value: Bytes, deleted: bool, attributes: Attributes)
    requires Serving(file) && AppendAccepts(key, value, attributes, [])
    ensures var file' := file + AppendBytes(key, value, deleted, attributes, []);
      && Serving(file')
      && Meaning(file') == ApplyItem(Meaning(file), key, deleted, Item(value, attributes, []))
  {
    hide ScanLog, Contents, AppendBytes, AppendAccepts, FileIndex, ReadHeader;
    var b := AppendBytes(key, value, deleted, attributes, []);
    AppendRefines(file, key, value, deleted, attributes, []);
    PrefixOfConcat(file, b, HEADER_SIZE);
    HeaderLocal(file + b, file);
    ServingIsGood(file);
    ServingIsGood(file + b);
  }

  /** An append interrupted before its last byte leaves a file that means what it meant before. */
  lemma TornAppend(file: Bytes, key: Bytes, value: Bytes, deleted: bool, attributes: Attributes, n: nat)
    requires Serving(file) && AppendAccepts(key, value, attributes, [])
    requires n < |AppendBytes(key, value, deleted, attributes, [])|
    ensures var file' := file + AppendBytes(key, value, deleted, attributes, [])[..n];
      && Good(file') && VersionOf(file') == LOG_VERSION && !IsReadOnly(file')
      && Meaning(file') == Meaning(file) && Repaired(file') == file
  {
    hide ScanFrom, Contents, AppendAccepts, EncodeBlock, Frame, ReadHeader;
    var b := AppendBytes(key, value, deleted, attributes, []);
    var file' := file + b[..n];
    PrefixOfConcat(file, b[..n], HEADER_SIZE);
    HeaderLocal(file', file);
    if n == 0 {
      assert file' == file;
      ServingIsGood(file);
    } else {
      AcceptedWithinLimits(key, value, deleted, attributes, []);
      TornTailExact(file, MakeRaw(key, value, deleted, attributes, []), n);
      assert file'[..|file|] == file;
      assert file[..|file|] == file'[..|file|];
      ContentsLocal(file', file, LOG_VERSION);
    }
  }

  /** Repairing a file keeps its meaning, its header, and needs no second repair. */
  lemma RepairKeeps(file: Bytes)
    requires Good(file) && |file| >= HEADER_SIZE
    ensures Good(Repaired(file)) && Meaning(Repaired(file)) == Meaning(file)
    ensures VersionOf(Repaired(file)) == VersionOf(file) && IsReadOnly(Repaired(file)) == IsReadOnly(file)
    ensures Repaired(Repaired(file)) == Repaired(file)
    ensures |Repaired(file)| >= HEADER_SIZE && Repaired(file)[..HEADER_SIZE] == file[..HEADER_SIZE]
    ensures VersionOf(file) == LOG_VERSION && !IsReadOnly(file) ==> Serving(Repaired(file))
    ensures !IsReadOnly(file) ==> ScanLog(Repaired(file), VersionOf(file)).outcome == Done
    ensures IsReadOnly(file) ==> Repaired(file) == file
  {
    hide ScanFrom, Contents, ReadHeader, FileIndex;
    ReadableHeader(file);
    var h := ReadHeader(file).header;
    if h.readOnly == 0 {
      RepairPreserves(file, h.version);
      var n := ScanLog(file, h.version).end;
      assert file[..n][..HEADER_SIZE] == file[..HEADER_SIZE];
      HeaderLocal(file[..n], file);
      assert file[..n][..n] == file[..n];
    }
  }

  /** The compacted form of any readable, repaired file serves and means the same. */
  lemma CompactServes(file: Bytes)
    requires Good(file) && |file| >= HEADER_SIZE
    ensures Serving(CompactFile(file, VersionOf(file)))
    ensures Meaning(CompactFile(file, VersionOf(file))) == Meaning(file)
  {
    hide ScanLog, Contents, CompactFile, LiveKeys, TotalSize, ReadHeader, FileIndex;
    ReadableHeader(file);
    CompactionPreserves(file, VersionOf(file));
    CompactedHeader(file, VersionOf(file));
    ServingIsGood(CompactFile(file, VersionOf(file)));
  }

  // --------------------------------------------------------------- upgrading a version 4 header

  /** A version 4 file part-way through having its header overwritten. */
  function PartlyUpgraded(file: Bytes, k: nat): Bytes
    requires |file| >= HEADER_SIZE && k <= HEADER_SIZE
  {
    EMPTY_LOG[..k] + file[k..]
  }

  lemma HeaderBytesOfSmallVersion(v: nat)
    requires v < 256
    ensures HeaderBytes(Header(v, 0, 0)) == MAGIC + [v, 0, 0, 0] + [0, 0, 0, 0] + [0, 0, 0, 0]
  {
    assert LittleEndian(v, 4) == [v] + LittleEndian(0, 3);
    assert LittleEndian(0, 4) == [0] + LittleEndian(0, 3);
    assert LittleEndian(0, 3) == [0] + LittleEndian(0, 2) == [0, 0] + LittleEndian(0, 1) == [0, 0, 0];
  }

  /** Only one byte of the header changes, so there is no state in between. */
  lemma PartlyUpgradedIsOldOrNew(file: Bytes, k: nat)
    requires |file| >= HEADER_SIZE && file[..HEADER_SIZE] == V4_HEADER && k <= HEADER_SIZE
    ensures |EMPTY_LOG| == HEADER_SIZE
    ensures PartlyUpgraded(file, k) == if k <= 4 then file else EMPTY_LOG + file[HEADER_SIZE..]
  {
    HeaderBytesOfSmallVersion(4);
    HeaderBytesOfSmallVersion(5);
    hide LittleEndian, HeaderBytes, MAGIC;
    var p := PartlyUpgraded(file, k);
    var whole := EMPTY_LOG + file[HEADER_SIZE..];
    assert forall i :: 0 <= i < HEADER_SIZE ==> file[i] == file[..HEADER_SIZE][i] == V4_HEADER[i];
    assert forall i :: 0 <= i < HEADER_SIZE && i != 4 ==> EMPTY_LOG[i] == V4_HEADER[i];
    forall i | 0 <= i < |file|
      ensures k <= 4 ==> p[i] == file[i]
      ensures k > 4 ==> p[i] == whole[i]
    {
    }
  }

  /** A header upgrade interrupted anywhere leaves a file that opens with the same contents. */
  lemma UpgradeKeeps(file: Bytes, k: nat)
    requires Good(file) && |file| >= HEADER_SIZE && file[..HEADER_SIZE] == V4_HEADER && k <= HEADER_SIZE
    requires Repaired(file) == file
    ensures var p := PartlyUpgraded(file, k);
      && |p| == |file| && Good(p) && Meaning(p) == Meaning(file) && !IsReadOnly(p)
      && (p == file || Serving(p))
      && (k == HEADER_SIZE ==> Serving(p))
  {
    hide ScanLog, Contents, FileIndex, LittleEndian;
    PartlyUpgradedIsOldOrNew(file, k);
    hide HeaderBytes, ReadHeader, PartlyUpgraded;
    V4Header(file);
    var whole := EMPTY_LOG + file[HEADER_SIZE..];
    HeaderReadBack(Header(LOG_VERSION, 0, 0), file[HEADER_SIZE..]);
    assert whole[HEADER_SIZE..] == file[HEADER_SIZE..];
    ContentsIgnoreHeader(file, whole, 4, LOG_VERSION);
    V4RepairedIsDone(file);
    ServingIsGood(whole);
  }

  lemma V4Header(file: Bytes)
    requires |file| >= HEADER_SIZE && file[..HEADER_SIZE] == V4_HEADER
    ensures ReadHeader(file) == Readable(Header(4, 0, 0)) && VersionOf(file) == 4 && !IsReadOnly(file)
  {
    hide HeaderBytes;
    HeaderReadBack(Header(4, 0, 0), file[HEADER_SIZE..]);
    assert file == V4_HEADER + file[HEADER_SIZE..];
  }

  lemma V4RepairedIsDone(file: Bytes)
    requires Good(file) && |file| >= HEADER_SIZE && VersionOf(file) == 4 && !IsReadOnly(file) && Repaired(file) == file
    ensures ScanLog(file, 4).outcome == Done
  {
    hide ScanLog, ReadHeader, Repaired, Good, Meaning;
    RepairKeeps(file);
  }

  /**
   The in-between states are harmless exactly because old writers left bytes 8 to 16 zero: with
   anything else there, some interruption leaves a header that is neither the old one nor a
   current one without features.
   */
  lemma InterruptedUpgradeSafeIff(file: Bytes)
    requires |file| >= HEADER_SIZE && file[..8] == V4_HEADER[..8]
    ensures |EMPTY_LOG| == HEADER_SIZE
    ensures (forall k :: 0 <= k <= HEADER_SIZE ==>
              ReadHeader(PartlyUpgraded(file, k)) == Readable(Header(4, 0, 0))
              || ReadHeader(PartlyUpgraded(file, k)) == Readable(Header(LOG_VERSION, 0, 0)))
        <==> file[8..16] == [0, 0, 0, 0, 0, 0, 0, 0]
  {
    hide ReadHeader, PartlyUpgraded, LittleEndian;
    HeaderBytesOfSmallVersion(4);
    HeaderBytesOfSmallVersion(5);
    if file[8..16] == [0, 0, 0, 0, 0, 0, 0, 0] {
      assert file[..HEADER_SIZE] == V4_HEADER by {
        assert file[..HEADER_SIZE] == file[..8] + file[8..16];
        assert V4_HEADER == V4_HEADER[..8] + [0, 0, 0, 0, 0, 0, 0, 0];
      }
      forall k | 0 <= k <= HEADER_SIZE
        ensures ReadHeader(PartlyUpgraded(file, k)) == Readable(Header(4, 0, 0))
             || ReadHeader(PartlyUpgraded(file, k)) == Readable(Header(LOG_VERSION, 0, 0))
      {
        PartlyUpgradedIsOldOrNew(file, k);
        V4Header(file);
        HeaderReadBack(Header(LOG_VERSION, 0, 0), file[HEADER_SIZE..]);
      }
    } else {
      MasksSurvive(file);
      assert ReadHeader(PartlyUpgraded(file, 8)) != Readable(Header(4, 0, 0));
    }
  }

  /** After eight bytes the new version is on disk with the old file's masks. */
  lemma MasksSurvive(file: Bytes)
    requires |file| >= HEADER_SIZE && file[8..16] != [0, 0, 0, 0, 0, 0, 0, 0]
    ensures |EMPTY_LOG| == HEADER_SIZE
    ensures ReadHeader(PartlyUpgraded(file, 8)) != Readable(Header(4, 0, 0))
    ensures ReadHeader(PartlyUpgraded(file, 8)) != Readable(Header(LOG_VERSION, 0, 0))
  {
    HeaderBytesOfSmallVersion(5);
    hide HeaderBytes;
    var p := PartlyUpgraded(file, 8);
    assert p[4..8] == [5, 0, 0, 0];
    NumberOf5();
    assert p[8..12] == file[8..12] && p[12..16] == file[12..16];
    assert file[8..16] == file[8..12] + file[12..16];
    hide Number;
    if Number(p[8..12]) == 0 && Number(p[12..16]) == 0 {
      ZeroBytes(p[8..12]);
      ZeroBytes(p[12..16]);
    }
  }

  lemma NumberOf5()
    ensures Number([5, 0, 0, 0]) == 5
  {
    ZeroNumber([0, 0, 0]);
    assert [5, 0, 0, 0][1..] == [0, 0, 0];
  }

  lemma {:induction false} ZeroNumber(b: Bytes)
    requires forall i :: 0 <= i < |b| ==> b[i] == 0
    ensures Number(b) == 0
  {
    if |b| > 0 { ZeroNumber(b[1..]); }
  }

  lemma ZeroBytes(b: Bytes)
    requires |b| == 4 && Number(b) == 0
    ensures b == [0, 0, 0, 0]
  {
    ZeroNumber([0, 0, 0, 0]);
    NumberInjective(b, [0, 0, 0, 0]);
  }
}
