/**
 What damage inside a log costs: the records behind a damaged one, which the scan takes for part of
 a torn tail and the repair cuts off.
 */
module DamagedLogs {
  import opened Bytes
  import opened Attributes
  import opened Record
  import opened Damage
  import opened Scan
  import opened LogMap

  /** The scan drops everything from `pos` on exactly when the reader finds the end of input there. */
  lemma DropsRestIff(before: Bytes, rest: Bytes)
    requires |before| >= HEADER_SIZE && ScanLog(before, LOG_VERSION).outcome == Done && |rest| > 0
    ensures ScanLog(before + rest, LOG_VERSION) == ScanResult(ScanLog(before, LOG_VERSION).records, |before|, Torn)
      <==> ParseRecord(before + rest, |before|) == EndOfInput
  {
    hide ParseRecord;
    ScanSplit(before, rest, HEADER_SIZE, LOG_VERSION);
    var whole := before + rest;
    var s := ScanFrom(whole, |whole|, |before|, LOG_VERSION);
    assert ScanLog(before, LOG_VERSION).records + [] == ScanLog(before, LOG_VERSION).records;
    if ParseRecord(whole, |before|).Parsed? && s.outcome == Torn {
      assert s.end > |before|;
    }
  }

  /** The file after the length field of the record behind `before` was overwritten. */
  function Relengthed(before: Bytes, r: Raw, after: Bytes, length: nat): Bytes
    requires WithinLimits(r) && length < 0x1_0000_0000
  {
    WithLength(before + Frame(r) + after, |before|, length)
  }

  /**
   Overwriting the length field of one record makes the scan drop it and everything behind it,
   complete records included, if and only if the new length has room for the known fields, stays
   within the extension limit, and runs past the end of the file.
   */
  lemma ChangedLengthDropsRestIff(before: Bytes, r: Raw, after: Bytes, length: nat)
    requires |before| >= HEADER_SIZE && ScanLog(before, LOG_VERSION).outcome == Done
    requires WithinLimits(r) && Interpret(r, |before|).Parsed? && length < 0x1_0000_0000
    ensures |Relengthed(before, r, after, length)| >= HEADER_SIZE
    ensures ScanLog(Relengthed(before, r, after, length), LOG_VERSION)
         == ScanResult(ScanLog(before, LOG_VERSION).records, |before|, Torn)
      <==> && KnownLength(r) <= length <= KnownLength(r) + MAX_EXTENSIONS_SIZE
           && 4 + length > |Frame(r)| + |after|
  {
    hide ParseRecord, Frame, Interpret, ScanFrom, LittleEndian;
    var data := before + Frame(r) + after;
    var data' := Relengthed(before, r, after, length);
    assert data[|before|..|before| + |Frame(r)|] == Frame(r);
    ChangedLengthReadsAsTornIff(data, |before|, r, length);
    var rest := data'[|before|..];
    assert data' == before + rest;
    DropsRestIff(before, rest);
  }

  /** A complete record makes the scan drop it and everything behind it if and only if its attribute block ends early. */
  lemma ShortBlockDropsRestIff(before: Bytes, r: Raw, after: Bytes)
    requires |before| >= HEADER_SIZE && ScanLog(before, LOG_VERSION).outcome == Done && WithinLimits(r)
    ensures ScanLog(before + Frame(r) + after, LOG_VERSION) == ScanResult(ScanLog(before, LOG_VERSION).records, |before|, Torn)
      <==> ExtensionsFramed(r.extensions) && DecodeAttributes(r.block) == UnexpectedEnd
  {
    hide ParseRecord, Frame, ExtensionsFramed, DecodeAttributes, ScanFrom;
    var data := before + Frame(r) + after;
    assert data[|before|..|before| + |Frame(r)|] == Frame(r);
    CompleteRecordReadsAsTornIff(data, |before|, r);
    Associative(before, Frame(r), after);
    DropsRestIff(before, Frame(r) + after);
  }

  // --------------------------------------------------------------- it happens

  /** Some overwritten length loses any record without extensions and up to 16 MB behind it. */
  lemma SomeLengthDropsRest(before: Bytes, r: Raw, after: Bytes)
    requires |before| >= HEADER_SIZE && ScanLog(before, LOG_VERSION).outcome == Done
    requires WithinLimits(r) && Interpret(r, |before|).Parsed? && r.extensions == [] && |after| < MAX_EXTENSIONS_SIZE
    ensures KnownLength(r) + |after| + 1 < 0x1_0000_0000
    ensures |Relengthed(before, r, after, KnownLength(r) + |after| + 1)| >= HEADER_SIZE
    ensures ScanLog(Relengthed(before, r, after, KnownLength(r) + |after| + 1), LOG_VERSION)
         == ScanResult(ScanLog(before, LOG_VERSION).records, |before|, Torn)
  {
    hide Interpret, ScanFrom, Relengthed;
    ChangedLengthDropsRestIff(before, r, after, KnownLength(r) + |after| + 1);
  }

  const EMPTY_PUT: Raw := Raw(0, [0, 0, 0], [], [0, 0, 0, 0], [], [])

  /** Two puts on any clean log are found by the scan, and both are lost to one changed length field. */
  lemma LengthLosesPuts(before: Bytes)
    requires |before| >= HEADER_SIZE && ScanLog(before, LOG_VERSION).outcome == Done
    ensures AppendBytes([], [], false, map[], []) == Frame(EMPTY_PUT)
    ensures |ScanLog(before + Frame(EMPTY_PUT) + Frame(EMPTY_PUT), LOG_VERSION).records|
         == |ScanLog(before, LOG_VERSION).records| + 2
    ensures |Relengthed(before, EMPTY_PUT, Frame(EMPTY_PUT), 53)| >= HEADER_SIZE
    ensures ScanLog(Relengthed(before, EMPTY_PUT, Frame(EMPTY_PUT), 53), LOG_VERSION)
         == ScanResult(ScanLog(before, LOG_VERSION).records, |before|, Torn)
  {
    hide ScanFrom, Frame, Acceptable, FileIndex, Contents, Relengthed, DecodeAttributes, EncodeBlock;
    EmptyBlock();
    assert ExtensionsFramed([]);
    var none: Attributes := map[];
    DecodeOfEncode(none);
    assert Interpret(EMPTY_PUT, |before|).Parsed?;
    SomeLengthDropsRest(before, EMPTY_PUT, Frame(EMPTY_PUT));
    AppendRefines(before, [], [], false, map[], []);
    AppendRefines(before + Frame(EMPTY_PUT), [], [], false, map[], []);
  }

  /** A record whose attribute block promises one pair and holds none. */
  const SHORT_BLOCK: Raw := Raw(0, [0, 0, 0], [], [1, 0, 0, 0], [], [])

  /** Written behind any clean log it is complete and checksummed, and costs everything behind it. */
  lemma ShortBlockLoses(before: Bytes, after: Bytes)
    requires |before| >= HEADER_SIZE && ScanLog(before, LOG_VERSION).outcome == Done
    ensures WithinLimits(SHORT_BLOCK)
    ensures ScanLog(before + Frame(SHORT_BLOCK) + after, LOG_VERSION)
         == ScanResult(ScanLog(before, LOG_VERSION).records, |before|, Torn)
  {
    hide ScanFrom, Frame;
    OnePairMissing();
    assert ExtensionsFramed([]);
    ShortBlockDropsRestIff(before, SHORT_BLOCK, after);
  }

  lemma OnePairMissing()
    ensures DecodeAttributes([1, 0, 0, 0]) == UnexpectedEnd
  {
    var b: Bytes := [1, 0, 0, 0];
    assert b[0..4] == b && b[..4] == b;
    assert b[1..] == [0, 0, 0] && [0, 0, 0][1..] == [0, 0] && [0, 0][1..] == [0] && [0][1..] == [];
    assert Number([0, 0, 0]) == 0;
    assert Number(b) == 1;
  }
}
