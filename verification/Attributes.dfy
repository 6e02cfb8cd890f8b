/**
 The attribute block of a record: a count, then one framed (name, text) pair per attribute.
 The writer lists names in increasing order; the reader accepts any order but no repeats.
 Go's nil map and empty map are both `map[]` here: no operation of the store tells them apart.
 */
module Attributes {
  import opened Bytes
  import opened Order

  type Attributes = map<Bytes, Bytes>

  const MAX_ATTRIBUTES_SIZE := 0x100_0000
  const MAX_ATTRIBUTE_COUNT := 4096
  const PAIR_HEADER_SIZE := 6

  datatype Pair = Pair(name: Bytes, text: Bytes)

  /** The lengths of the pair fit their fields, and the name is not empty. */
  predicate PairFits(p: Pair) {
    0 < |p.name| < 0x1_0000 && |p.text| < 0x1_0000_0000
  }

  predicate PairsFit(ps: seq<Pair>) {
    forall i :: 0 <= i < |ps| ==> PairFits(ps[i])
  }

  predicate Distinct(ps: seq<Pair>) {
    forall i, j :: 0 <= i < j < |ps| ==> ps[i].name != ps[j].name
  }

  predicate Named(ps: seq<Pair>, name: Bytes) {
    exists i :: 0 <= i < |ps| && ps[i].name == name
  }

  /** The names appear in strictly increasing byte-wise order. */
  predicate Increasing(ps: seq<Pair>) {
    forall i, j :: 0 <= i < j < |ps| ==> LexLess(ps[i].name, ps[j].name)
  }

  function PairSize(p: Pair): (n: nat) {
    PAIR_HEADER_SIZE + |p.name| + |p.text|
  }

  function EncodePair(p: Pair): (b: Bytes)
    ensures |b| == PairSize(p)
  {
    LittleEndian(|p.name|, 2) + LittleEndian(|p.text|, 4) + p.name + p.text
  }

  function EncodePairs(ps: seq<Pair>): Bytes {
    if |ps| == 0 then [] else EncodePair(ps[0]) + EncodePairs(ps[1..])
  }

  lemma {:induction false} EncodePairsConcat(ps: seq<Pair>, qs: seq<Pair>)
    ensures EncodePairs(ps + qs) == EncodePairs(ps) + EncodePairs(qs)
  {
    hide EncodePair;
    if |ps| == 0 {
      assert ps + qs == qs;
    } else {
      EncodePairsConcat(ps[1..], qs);
      assert (ps + qs)[1..] == ps[1..] + qs;
      Associative(EncodePair(ps[0]), EncodePairs(ps[1..]), EncodePairs(qs));
    }
  }

  lemma EncodePairsSnoc(ps: seq<Pair>, p: Pair)
    ensures EncodePairs(ps + [p]) == EncodePairs(ps) + EncodePair(p)
  {
    EncodePairsConcat(ps, [p]);
    assert EncodePairs([p]) == EncodePair(p) + [];
  }

  // --------------------------------------------------------------- reading

  /** What the reader makes of a block: its pairs, an unexpected end, or malformed data. */
  datatype Decoded = Block(pairs: seq<Pair>) | ShortBlock | BadBlock

  function DecodePairs(buf: Bytes, pos: nat, count: nat, seen: seq<Pair>): Decoded
    requires pos <= |buf|
    decreases count
  {
    if count == 0 then
      if pos != |buf| then BadBlock else Block(seen)
    else if |buf| - pos < PAIR_HEADER_SIZE then ShortBlock
    else
      var nameLen := Number(buf[pos..pos + 2]);
      var textLen := Number(buf[pos + 2..pos + 6]);
      if nameLen == 0 || nameLen > |buf| - (pos + 6) then BadBlock
      else
        var at := pos + 6 + nameLen;
        var name := buf[pos + 6..at];
        if textLen > |buf| - at then ShortBlock
        else if Named(seen, name) then BadBlock
        else DecodePairs(buf, at + textLen, count - 1, seen + [Pair(name, buf[at..at + textLen])])
  }

  function DecodeBlock(buf: Bytes): Decoded {
    if |buf| < 4 then BadBlock
    else if Number(buf[..4]) > MAX_ATTRIBUTE_COUNT then BadBlock
    else DecodePairs(buf, 4, Number(buf[..4]), [])
  }

  /** The map a list of pairs denotes. */
  function MapOf(ps: seq<Pair>): Attributes {
    if |ps| == 0 then map[] else MapOf(ps[..|ps| - 1])[ps[|ps| - 1].name := ps[|ps| - 1].text]
  }

  lemma {:induction false} MapOfKeys(ps: seq<Pair>, name: Bytes)
    ensures name in MapOf(ps) <==> Named(ps, name)
  {
    if |ps| > 0 {
      MapOfKeys(ps[..|ps| - 1], name);
      assert forall i :: 0 <= i < |ps| - 1 ==> ps[i] == ps[..|ps| - 1][i];
    }
  }

  lemma {:induction false} MapOfAt(ps: seq<Pair>, i: nat)
    requires Distinct(ps) && i < |ps|
    ensures ps[i].name in MapOf(ps) && MapOf(ps)[ps[i].name] == ps[i].text
  {
    if i < |ps| - 1 {
      MapOfAt(ps[..|ps| - 1], i);
    }
  }

  /** One pair written at `pos` is read back, and the rest of the block follows it. */
  lemma DecodeOnePair(buf: Bytes, pos: nat, p: Pair, count: nat, seen: seq<Pair>)
    requires PairFits(p) && count > 0
    requires pos + PairSize(p) <= |buf| && buf[pos..pos + PairSize(p)] == EncodePair(p)
    requires !Named(seen, p.name)
    ensures DecodePairs(buf, pos, count, seen) == DecodePairs(buf, pos + PairSize(p), count - 1, seen + [p])
  {
    RadixValues();
    var n, t := LittleEndian(|p.name|, 2), LittleEndian(|p.text|, 4);
    Split(buf, pos, n + t + p.name, p.text);
    Split(buf, pos, n + t, p.name);
    Split(buf, pos, n, t);
    NumberOfLittleEndian(|p.name|, 2);
    NumberOfLittleEndian(|p.text|, 4);
  }

  lemma DecodeNoPairs(buf: Bytes, seen: seq<Pair>)
    ensures DecodePairs(buf, |buf|, 0, seen) == Block(seen)
  {
  }

  lemma FirstNotNamed(seen: seq<Pair>, ps: seq<Pair>)
    requires |ps| > 0 && Distinct(seen + ps)
    ensures !Named(seen, ps[0].name)
  {
    assert (seen + ps)[|seen|] == ps[0];
    assert forall i :: 0 <= i < |seen| ==> (seen + ps)[i] == seen[i];
  }

  lemma {:induction false} DecodeEncodedPairs(buf: Bytes, pos: nat, ps: seq<Pair>, seen: seq<Pair>)
    requires pos <= |buf| && buf[pos..] == EncodePairs(ps)
    requires PairsFit(ps) && Distinct(seen + ps)
    ensures DecodePairs(buf, pos, |ps|, seen) == Block(seen + ps)
    decreases |ps|
  {
    hide EncodePair, DecodePairs, PairSize;
    if |ps| == 0 {
      assert seen + ps == seen;
      DecodeNoPairs(buf, seen);
    } else {
      var p, rest := ps[0], EncodePairs(ps[1..]);
      FirstNotNamed(seen, ps);
      assert |buf| == pos + PairSize(p) + |rest|;
      assert buf[pos..pos + PairSize(p) + |rest|] == EncodePair(p) + rest;
      Split(buf, pos, EncodePair(p), rest);
      DecodeOnePair(buf, pos, p, |ps|, seen);
      assert (seen + [p]) + ps[1..] == seen + ps;
      assert buf[pos + PairSize(p)..] == rest;
      DecodeEncodedPairs(buf, pos + PairSize(p), ps[1..], seen + [p]);
    }
  }

  /** The pair whose lengths are at `pos`. */
  function PairAt(buf: Bytes, pos: nat): Pair
    requires pos + 6 <= |buf| && pos + 6 + Number(buf[pos..pos + 2]) + Number(buf[pos + 2..pos + 6]) <= |buf|
  {
    var at := pos + 6 + Number(buf[pos..pos + 2]);
    Pair(buf[pos + 6..at], buf[at..at + Number(buf[pos + 2..pos + 6])])
  }

  lemma PairBytes(buf: Bytes, pos: nat)
    requires pos + 6 <= |buf| && pos + 6 + Number(buf[pos..pos + 2]) + Number(buf[pos + 2..pos + 6]) <= |buf|
    requires Number(buf[pos..pos + 2]) > 0
    ensures var p := PairAt(buf, pos);
      && PairSize(p) == 6 + Number(buf[pos..pos + 2]) + Number(buf[pos + 2..pos + 6])
      && buf[pos..pos + PairSize(p)] == EncodePair(p) && PairFits(p)
  {
    hide Number, LittleEndian;
    RadixValues();
    var at := pos + 6 + Number(buf[pos..pos + 2]);
    LittleEndianOfNumber(buf[pos..pos + 2]);
    LittleEndianOfNumber(buf[pos + 2..pos + 6]);
    Join(buf, pos, pos + 2, pos + 6);
    Join(buf, pos, pos + 6, at);
    Join(buf, pos, at, at + Number(buf[pos + 2..pos + 6]));
  }

  /** When a pair is accepted its bytes are the encoding of what was read. */
  lemma FirstPair(buf: Bytes, pos: nat, count: nat, seen: seq<Pair>) returns (p: Pair)
    requires pos <= |buf| && count > 0
    requires DecodePairs(buf, pos, count, seen).Block?
    ensures pos + PairSize(p) <= |buf| && buf[pos..pos + PairSize(p)] == EncodePair(p)
    ensures PairFits(p) && !Named(seen, p.name)
    ensures DecodePairs(buf, pos, count, seen) == DecodePairs(buf, pos + PairSize(p), count - 1, seen + [p])
  {
    hide Number, EncodePair, PairFits, PairSize, Named;
    PairBytes(buf, pos);
    p := PairAt(buf, pos);
  }

  lemma DistinctSnoc(seen: seq<Pair>, p: Pair)
    requires Distinct(seen) && !Named(seen, p.name)
    ensures Distinct(seen + [p])
  {
  }

  lemma NoMorePairs(buf: Bytes, pos: nat, seen: seq<Pair>)
    requires pos <= |buf| && DecodePairs(buf, pos, 0, seen).Block?
    ensures DecodePairs(buf, pos, 0, seen) == Block(seen) && pos == |buf|
  {
  }

  lemma TailPairs(ps: seq<Pair>, seen: seq<Pair>, p: Pair)
    requires |ps| > |seen| && ps[..|seen| + 1] == seen + [p] && PairFits(p) && PairsFit(ps[|seen| + 1..])
    ensures ps[..|seen|] == seen && ps[|seen|..] == [p] + ps[|seen| + 1..] && PairsFit(ps[|seen|..])
  {
    assert ps[|seen|] == ps[..|seen| + 1][|seen|] == p;
    assert ps[..|seen|] == ps[..|seen| + 1][..|seen|];
  }

  /** Every accepted block is the encoding of the pairs read from it, which fit and do not repeat. */
  lemma {:induction false} DecodePairsSound(buf: Bytes, pos: nat, count: nat, seen: seq<Pair>)
    requires pos <= |buf| && Distinct(seen)
    requires DecodePairs(buf, pos, count, seen).Block?
    ensures var ps := DecodePairs(buf, pos, count, seen).pairs;
      && |ps| == |seen| + count && ps[..|seen|] == seen
      && PairsFit(ps[|seen|..]) && Distinct(ps)
      && buf[pos..] == EncodePairs(ps[|seen|..])
    decreases count
  {
    hide DecodePairs, EncodePair, PairSize, Named, PairFits, Distinct;
    if count == 0 {
      NoMorePairs(buf, pos, seen);
      assert seen[|seen|..] == [] && seen[..|seen|] == seen;
    } else {
      var p := FirstPair(buf, pos, count, seen);
      DistinctSnoc(seen, p);
      DecodePairsSound(buf, pos + PairSize(p), count - 1, seen + [p]);
      var ps := DecodePairs(buf, pos, count, seen).pairs;
      TailPairs(ps, seen, p);
      Join(buf, pos, pos + PairSize(p), |buf|);
      assert buf[pos..] == buf[pos..|buf|];
      assert buf[pos + PairSize(p)..] == buf[pos + PairSize(p)..|buf|];
      assert ([p] + ps[|seen| + 1..])[1..] == ps[|seen| + 1..];
    }
  }

  function EncodeList(ps: seq<Pair>): Bytes {
    LittleEndian(|ps|, 4) + EncodePairs(ps)
  }

  lemma DecodeOfEncodeList(ps: seq<Pair>)
    requires PairsFit(ps) && Distinct(ps) && |ps| <= MAX_ATTRIBUTE_COUNT
    ensures DecodeBlock(EncodeList(ps)) == Block(ps)
  {
    RadixValues();
    var buf := EncodeList(ps);
    assert buf[..4] == LittleEndian(|ps|, 4);
    NumberOfLittleEndian(|ps|, 4);
    assert buf[4..] == EncodePairs(ps);
    assert [] + ps == ps;
    DecodeEncodedPairs(buf, 4, ps, []);
  }

  lemma EncodeListOfDecode(buf: Bytes)
    requires DecodeBlock(buf).Block?
    ensures var ps := DecodeBlock(buf).pairs;
      PairsFit(ps) && Distinct(ps) && |ps| <= MAX_ATTRIBUTE_COUNT && buf == EncodeList(ps)
  {
    DecodePairsSound(buf, 4, Number(buf[..4]), []);
    var ps := DecodeBlock(buf).pairs;
    assert ps[0..] == ps;
    LittleEndianOfNumber(buf[..4]);
    assert buf == buf[..4] + buf[4..];
  }

  /** The reader's language: a block is accepted exactly when it is the count and the encodings of distinct pairs that fit. */
  lemma BlockAcceptedIff(buf: Bytes, ps: seq<Pair>)
    ensures DecodeBlock(buf) == Block(ps) <==>
      |ps| <= 4096 && PairsFit(ps) && Distinct(ps) && buf == LittleEndian(|ps|, 4) + EncodePairs(ps)
  {
    hide DecodeBlock, EncodePairs, PairsFit, Distinct;
    if DecodeBlock(buf) == Block(ps) {
      EncodeListOfDecode(buf);
    } else if |ps| <= 4096 && PairsFit(ps) && Distinct(ps) && buf == EncodeList(ps) {
      DecodeOfEncodeList(ps);
    }
  }

  /** A pair that ends early: its header is cut off, or its text is. A name that does not fit is malformed instead. */
  predicate CutOff(rest: Bytes) {
    || |rest| < 6
    || (&& 0 < Number(rest[0..2]) <= |rest| - 6
        && Number(rest[2..6]) > |rest| - 6 - Number(rest[0..2]))
  }

  /** `rest` follows the pairs `ps` that were read from `buf`, which announces more of them. */
  predicate EndsEarly(data: Bytes, count: nat, seen: seq<Pair>, ps: seq<Pair>, rest: Bytes) {
    |ps| < count && PairsFit(ps) && Distinct(seen + ps) && data == EncodePairs(ps) + rest && CutOff(rest)
  }

  lemma ShortAtOnce(buf: Bytes, pos: nat, count: nat, seen: seq<Pair>)
    requires pos <= |buf| && count > 0 && CutOff(buf[pos..])
    ensures DecodePairs(buf, pos, count, seen) == ShortBlock
  {
    hide Number;
    var rest := buf[pos..];
    if |rest| >= 6 {
      assert rest[0..2] == buf[pos..pos + 2] && rest[2..6] == buf[pos + 2..pos + 6];
    }
  }

  lemma {:induction false} ShortIfEndsEarly(buf: Bytes, pos: nat, count: nat, seen: seq<Pair>, ps: seq<Pair>, rest: Bytes)
    requires pos <= |buf| && EndsEarly(buf[pos..], count, seen, ps, rest)
    ensures DecodePairs(buf, pos, count, seen) == ShortBlock
    decreases |ps|
  {
    hide EncodePair, DecodePairs, PairSize, CutOff;
    if |ps| == 0 {
      assert [] + rest == rest;
      ShortAtOnce(buf, pos, count, seen);
    } else {
      var p, tail := ps[0], EncodePairs(ps[1..]) + rest;
      FirstNotNamed(seen, ps);
      Associative(EncodePair(p), EncodePairs(ps[1..]), rest);
      assert buf[pos..] == EncodePair(p) + tail;
      assert buf[pos..pos + PairSize(p) + |tail|] == EncodePair(p) + tail;
      Split(buf, pos, EncodePair(p), tail);
      DecodeOnePair(buf, pos, p, count, seen);
      assert (seen + [p]) + ps[1..] == seen + ps;
      assert buf[pos + PairSize(p)..] == tail;
      ShortIfEndsEarly(buf, pos + PairSize(p), count - 1, seen + [p], ps[1..], rest);
    }
  }

  /** A pair was read, or the block ends here. */
  lemma PairOrCut(buf: Bytes, pos: nat, count: nat, seen: seq<Pair>) returns (p: Pair)
    requires pos <= |buf| && count > 0 && DecodePairs(buf, pos, count, seen) == ShortBlock && !CutOff(buf[pos..])
    ensures pos + PairSize(p) <= |buf| && buf[pos..pos + PairSize(p)] == EncodePair(p)
    ensures PairFits(p) && !Named(seen, p.name)
    ensures DecodePairs(buf, pos + PairSize(p), count - 1, seen + [p]) == ShortBlock
  {
    hide Number, EncodePair, PairFits, PairSize, Named;
    var rest := buf[pos..];
    assert rest[0..2] == buf[pos..pos + 2] && rest[2..6] == buf[pos + 2..pos + 6];
    PairBytes(buf, pos);
    p := PairAt(buf, pos);
  }

  lemma {:induction false} EndsEarlyIfShort(buf: Bytes, pos: nat, count: nat, seen: seq<Pair>)
    returns (ps: seq<Pair>, rest: Bytes)
    requires pos <= |buf| && Distinct(seen) && DecodePairs(buf, pos, count, seen) == ShortBlock
    ensures EndsEarly(buf[pos..], count, seen, ps, rest)
    decreases count
  {
    hide EncodePair, PairSize, CutOff, Named, PairFits, Distinct;
    if CutOff(buf[pos..]) {
      ps, rest := [], buf[pos..];
      assert seen + [] == seen && [] + rest == rest;
    } else {
      var p := PairOrCut(buf, pos, count, seen);
      DistinctSnoc(seen, p);
      var tail;
      tail, rest := EndsEarlyIfShort(buf, pos + PairSize(p), count - 1, seen + [p]);
      ps := [p] + tail;
      assert ps[1..] == tail && (seen + [p]) + tail == seen + ps;
      Associative(EncodePair(p), EncodePairs(tail), rest);
      assert buf[pos..] == buf[pos..pos + PairSize(p)] + buf[pos + PairSize(p)..];
    }
  }

  /** A block ends early exactly when fewer pairs than announced are there and what follows them is cut off. */
  lemma ShortBlockIff(buf: Bytes)
    ensures DecodeBlock(buf) == ShortBlock <==>
      && |buf| >= 4 && Number(buf[..4]) <= 4096
      && exists ps: seq<Pair>, rest: Bytes :: EndsEarly(buf[4..], Number(buf[..4]), [], ps, rest)
  {
    hide DecodePairs, EndsEarly, Number;
    if |buf| >= 4 && Number(buf[..4]) <= 4096 {
      var count := Number(buf[..4]);
      if DecodePairs(buf, 4, count, []) == ShortBlock {
        var ps, rest := EndsEarlyIfShort(buf, 4, count, []);
      }
      forall ps: seq<Pair>, rest: Bytes | EndsEarly(buf[4..], count, [], ps, rest)
        ensures DecodePairs(buf, 4, count, []) == ShortBlock
      {
        ShortIfEndsEarly(buf, 4, count, [], ps, rest);
      }
    }
  }

  // --------------------------------------------------------------- writing

  function PairIn(m: Attributes, name: Bytes): Pair {
    Pair(name, if name in m then m[name] else [])
  }

  function SizeIn(m: Attributes): Bytes -> int {
    name => PairSize(PairIn(m, name))
  }

  /** The pairs of a map in increasing order of name. */
  ghost function CanonicalPairs(m: Attributes): (ps: seq<Pair>)
    ensures |ps| == |m| && Increasing(ps)
    ensures forall i :: 0 <= i < |ps| ==> ps[i].name in m && ps[i] == PairIn(m, ps[i].name)
    ensures forall name :: name in m ==> Named(ps, name)
  {
    LexOrder(m.Keys);
    var names := Sorting(LexLess, m.Keys);
    SortingLength(LexLess, m.Keys, names);
    var ps := seq(|names|, i requires 0 <= i < |names| => PairIn(m, names[i]));
    assert forall i :: 0 <= i < |ps| ==> ps[i].name == names[i] && names[i] in names;
    PairsOfNames(m, names, ps);
    ps
  }

  lemma PairsOfNames(m: Attributes, names: seq<Bytes>, ps: seq<Pair>)
    requires IsSorting(LexLess, m.Keys, names) && |ps| == |names|
    requires forall i :: 0 <= i < |ps| ==> ps[i].name == names[i]
    ensures Increasing(ps) && forall name :: name in m ==> Named(ps, name)
  {
    hide LexLess;
    forall name | name in m
      ensures Named(ps, name)
    {
      assert name in names;
      var i :| 0 <= i < |names| && names[i] == name;
      assert ps[i].name == name;
    }
  }

  lemma IncreasingDistinct(ps: seq<Pair>)
    requires Increasing(ps)
    ensures Distinct(ps)
  {
    forall i, j | 0 <= i < j < |ps|
      ensures ps[i].name != ps[j].name
    {
      LexIrreflexive(ps[i].name);
      assert LexLess(ps[i].name, ps[j].name);
    }
  }

  lemma MapOfCanonical(m: Attributes)
    ensures MapOf(CanonicalPairs(m)) == m
  {
    var ps := CanonicalPairs(m);
    IncreasingDistinct(ps);
    forall name
      ensures name in MapOf(ps) <==> name in m
    {
      MapOfKeys(ps, name);
    }
    forall name | name in m
      ensures MapOf(ps)[name] == m[name]
    {
      var i :| 0 <= i < |ps| && ps[i].name == name;
      MapOfAt(ps, i);
    }
  }

  function Names(ps: seq<Pair>): (names: seq<Bytes>)
    ensures |names| == |ps| && forall i :: 0 <= i < |ps| ==> names[i] == ps[i].name
  {
    seq(|ps|, i requires 0 <= i < |ps| => ps[i].name)
  }

  lemma NamesSorted(ps: seq<Pair>, names: set<Bytes>)
    requires Increasing(ps) && (forall name :: name in names <==> Named(ps, name))
    ensures IsSorting(LexLess, names, Names(ps))
  {
    hide LexLess;
    forall name
      ensures name in Names(ps) <==> name in names
    {
      if Named(ps, name) {
        var i :| 0 <= i < |ps| && ps[i].name == name;
        assert Names(ps)[i] == name;
      }
    }
  }

  /** An increasing list is the only increasing list of its map. */
  lemma CanonicalOfMapOf(ps: seq<Pair>)
    requires Increasing(ps)
    ensures CanonicalPairs(MapOf(ps)) == ps
  {
    var m := MapOf(ps);
    var cs := CanonicalPairs(m);
    IncreasingDistinct(ps);
    forall name
      ensures name in m.Keys <==> Named(ps, name)
    {
      MapOfKeys(ps, name);
    }
    NamesSorted(ps, m.Keys);
    NamesSorted(cs, m.Keys);
    LexOrder(m.Keys);
    SortingUnique(LexLess, m.Keys, Names(ps), Names(cs));
    assert |ps| == |Names(ps)| && |cs| == |Names(cs)|;
    forall i | 0 <= i < |ps|
      ensures ps[i] == cs[i]
    {
      MapOfAt(ps, i);
      assert Names(ps)[i] == Names(cs)[i];
    }
  }

  /** The block the writer produces. */
  ghost function EncodeBlock(m: Attributes): Bytes {
    EncodeList(CanonicalPairs(m))
  }

  /** The writer's limits: count, names, and the size of the whole block. */
  ghost predicate Acceptable(m: Attributes) {
    && |m| <= MAX_ATTRIBUTE_COUNT
    && (forall name :: name in m ==> PairFits(PairIn(m, name)))
    && 4 + Sum(m.Keys, SizeIn(m)) <= MAX_ATTRIBUTES_SIZE
  }

  lemma {:induction false} EncodedPairsSize(m: Attributes, ps: seq<Pair>, names: set<Bytes>)
    requires Distinct(ps) && (forall i :: 0 <= i < |ps| ==> ps[i] == PairIn(m, ps[i].name))
    requires forall name :: name in names <==> Named(ps, name)
    ensures |EncodePairs(ps)| == Sum(names, SizeIn(m))
    decreases |ps|
  {
    if |ps| == 0 {
      assert names == {};
    } else {
      var p := ps[0];
      assert Named(ps, p.name);
      var rest := ps[1..];
      forall name
        ensures name in names - {p.name} <==> Named(rest, name)
      {
        assert ps == [p] + rest;
        assert forall i :: 0 <= i < |rest| ==> ps[i + 1] == rest[i];
        if name in names - {p.name} {
          var i :| 0 <= i < |ps| && ps[i].name == name;
          assert rest[i - 1].name == name;
        }
      }
      EncodedPairsSize(m, rest, names - {p.name});
      SumRemove(names, SizeIn(m), p.name);
    }
  }

  /** The block is exactly as long as the sum the writer computes before filling it. */
  lemma EncodedBlockSize(m: Attributes)
    ensures |EncodeBlock(m)| == 4 + Sum(m.Keys, SizeIn(m))
  {
    IncreasingDistinct(CanonicalPairs(m));
    EncodedPairsSize(m, CanonicalPairs(m), m.Keys);
  }

  // --------------------------------------------------------------- main results

  /** What a reader of the block gets: the map, an unexpected end, or malformed data. */
  datatype DecodeResult = Map(attributes: Attributes) | UnexpectedEnd | Invalid

  function DecodeAttributes(buf: Bytes): DecodeResult {
    match DecodeBlock(buf)
    case Block(ps) => Map(MapOf(ps))
    case ShortBlock => UnexpectedEnd
    case BadBlock => Invalid
  }

  /** Round trip: every map the writer accepts is read back unchanged. */
  lemma DecodeOfEncode(m: Attributes)
    requires Acceptable(m)
    ensures DecodeAttributes(EncodeBlock(m)) == Map(m)
  {
    var ps := CanonicalPairs(m);
    IncreasingDistinct(ps);
    assert PairsFit(ps);
    DecodeOfEncodeList(ps);
    MapOfCanonical(m);
  }

  /** Every block the reader accepts, within the size limit, holds a map the writer accepts. */
  lemma DecodedIsAcceptable(buf: Bytes)
    requires DecodeAttributes(buf).Map? && |buf| <= MAX_ATTRIBUTES_SIZE
    ensures Acceptable(DecodeAttributes(buf).attributes)
    ensures |EncodeBlock(DecodeAttributes(buf).attributes)| == |buf|
  {
    hide DecodeBlock, EncodePairs, MapOf, SizeIn;
    var ps := DecodeBlock(buf).pairs;
    EncodeListOfDecode(buf);
    MapOfFits(ps);
    EncodedBlockSize(MapOf(ps));
  }

  lemma MapOfFits(ps: seq<Pair>)
    requires PairsFit(ps) && Distinct(ps)
    ensures var m := MapOf(ps);
      && |m| == |ps| && |EncodePairs(ps)| == Sum(m.Keys, SizeIn(m))
      && forall name :: name in m ==> PairFits(PairIn(m, name))
  {
    hide EncodePairs, MapOf, SizeIn, PairFits;
    var m := MapOf(ps);
    forall i | 0 <= i < |ps|
      ensures ps[i] == PairIn(m, ps[i].name)
    {
      MapOfAt(ps, i);
    }
    forall name
      ensures name in m.Keys <==> Named(ps, name)
    {
      MapOfKeys(ps, name);
    }
    EncodedPairsSize(m, ps, m.Keys);
    MapOfCount(ps);
    forall name | name in m
      ensures PairFits(PairIn(m, name))
    {
      var i :| 0 <= i < |ps| && ps[i].name == name;
      assert PairFits(ps[i]);
    }
  }

  lemma {:induction false} MapOfCount(ps: seq<Pair>)
    requires Distinct(ps)
    ensures |MapOf(ps)| == |ps|
  {
    if |ps| > 0 {
      var init, p := ps[..|ps| - 1], ps[|ps| - 1];
      MapOfCount(init);
      MapOfKeys(init, p.name);
      assert p.name !in MapOf(init).Keys;
      assert MapOf(ps).Keys == MapOf(init).Keys + {p.name};
    }
  }

  /** Canonicity: an accepted block is what the writer would write exactly when its names increase. */
  lemma CanonicalIff(buf: Bytes)
    requires DecodeAttributes(buf).Map?
    ensures EncodeBlock(DecodeAttributes(buf).attributes) == buf <==> Increasing(DecodeBlock(buf).pairs)
  {
    var ps := DecodeBlock(buf).pairs;
    EncodeListOfDecode(buf);
    if Increasing(ps) {
      CanonicalOfMapOf(ps);
    } else {
      var cs := CanonicalPairs(MapOf(ps));
      assert cs != ps;
      if EncodeList(cs) == buf {
        IncreasingDistinct(cs);
        MapOfCount(ps);
        assert PairsFit(cs) by {
          forall i | 0 <= i < |cs|
            ensures PairFits(cs[i])
          {
            MapOfKeys(ps, cs[i].name);
            var j :| 0 <= j < |ps| && ps[j].name == cs[i].name;
            MapOfAt(ps, j);
            assert PairFits(ps[j]);
          }
        }
        DecodeOfEncodeList(cs);
      }
    }
  }

  // --------------------------------------------------------------- the loops

  datatype EncodeResult = Encoded(block: Bytes) | InvalidName | TooLarge

  /** Copies `b` into `buf` at `pos`. */
  method CopyInto(buf: array<byte>, pos: nat, b: Bytes)
    requires pos + |b| <= buf.Length
    modifies buf
    ensures buf[..pos + |b|] == old(buf[..pos]) + b
  {
    for i := 0 to |b|
      invariant buf[..pos + i] == old(buf[..pos]) + b[..i]
    {
      buf[pos + i] := b[i];
    }
  }

  /** The writer's first loop: limits and total, over the map in no fixed order. */
  method MeasureAttributes(m: Attributes) returns (total: nat, r: EncodeResult)
    requires 0 < |m| <= MAX_ATTRIBUTE_COUNT
    ensures r.Encoded? <==> Acceptable(m)
    ensures r.Encoded? ==> total == 4 + Sum(m.Keys, SizeIn(m))
    ensures r.InvalidName? ==> [] in m
    ensures r.TooLarge? ==>
      || (exists name :: name in m && (|name| >= 0x1_0000 || |m[name]| >= 0x1_0000_0000))
      || 4 + Sum(m.Keys, SizeIn(m)) > MAX_ATTRIBUTES_SIZE
  {
    hide Sum, SizeIn, PairFits;
    total := 4;
    var rest := m.Keys;
    while rest != {}
      invariant rest <= m.Keys
      invariant total + Sum(rest, SizeIn(m)) == 4 + Sum(m.Keys, SizeIn(m))
      invariant total <= MAX_ATTRIBUTES_SIZE
      invariant forall name :: name in m && name !in rest ==> PairFits(PairIn(m, name))
    {
      var name :| name in rest;
      SumRemove(rest, SizeIn(m), name);
      SumNonNegative(m, rest - {name});
      FitsIn(m, name);
      if |name| == 0 {
        return total, InvalidName;
      }
      if |name| >= 0x1_0000 || |m[name]| >= 0x1_0000_0000 {
        return total, TooLarge;
      }
      total := total + 6 + |name| + |m[name]|;
      if total > MAX_ATTRIBUTES_SIZE {
        return total, TooLarge;
      }
      rest := rest - {name};
    }
    SumEmpty(SizeIn(m));
    r := Encoded([]);
  }

  lemma FitsIn(m: Attributes, name: Bytes)
    requires name in m
    ensures PairFits(PairIn(m, name)) <==> 0 < |name| < 0x1_0000 && |m[name]| < 0x1_0000_0000
    ensures SizeIn(m)(name) == 6 + |name| + |m[name]|
  {
  }

  lemma {:induction false} SumNonNegative(m: Attributes, names: set<Bytes>)
    ensures Sum(names, SizeIn(m)) >= 0
    decreases |names|
  {
    if names != {} {
      var x :| x in names;
      SumRemove(names, SizeIn(m), x);
      SumNonNegative(m, names - {x});
    }
  }

  /** Encodes a map into a buffer of the measured size. */
  method EncodeAttributes(m: Attributes) returns (r: EncodeResult)
    ensures r.Encoded? <==> Acceptable(m)
    ensures r.Encoded? ==> r.block == EncodeBlock(m)
    ensures r.InvalidName? ==> [] in m
  {
    hide EncodePairs, Sum, SizeIn, Sorting, PairFits, PairIn, LexLess, IsSorting, StrictOrderOn, LittleEndian, CanonicalPairs;
    EncodedBlockSize(m);
    if |m| == 0 {
      EmptyBlock();
      assert m == map[];
      return Encoded([0, 0, 0, 0]);
    }
    if |m| > MAX_ATTRIBUTE_COUNT {
      return TooLarge;
    }
    var total;
    total, r := MeasureAttributes(m);
    if !r.Encoded? {
      return;
    }
    CanonicalNames(m);
    var names := SortSet(LexLess, m.Keys);
    ghost var ps := CanonicalPairs(m);
    var buf := new byte[total];
    CopyInto(buf, 0, LittleEndian(|names|, 4));
    var pos := FillPairs(m, names, ps, buf);
    assert pos == total;
    assert buf[..total] == buf[..];
    r := Encoded(buf[..]);
  }

  lemma CanonicalNames(m: Attributes)
    ensures StrictOrderOn(LexLess, m.Keys)
    ensures Sorting(LexLess, m.Keys) == Names(CanonicalPairs(m))
  {
    hide LexLess, CanonicalPairs, Sorting;
    LexOrder(m.Keys);
    NamesSorted(CanonicalPairs(m), m.Keys);
    SortingUnique(LexLess, m.Keys, Sorting(LexLess, m.Keys), Names(CanonicalPairs(m)));
  }

  lemma EmptyBlock()
    ensures EncodeBlock(map[]) == [0, 0, 0, 0] && Acceptable(map[])
  {
    var none: Attributes := map[];
    EncodedBlockSize(none);
    assert LittleEndian(0, 4) == [0] + LittleEndian(0, 3) == [0, 0] + LittleEndian(0, 2)
        == [0, 0, 0] + LittleEndian(0, 1) == [0, 0, 0, 0];
    assert CanonicalPairs(none) == [];
  }

  /** The writer's second loop: fills the measured buffer exactly to its end. */
  method FillPairs(m: Attributes, names: seq<Bytes>, ghost ps: seq<Pair>, buf: array<byte>) returns (pos: nat)
    requires names == Names(ps) && (forall i :: 0 <= i < |ps| ==> ps[i].name in m && ps[i] == PairIn(m, ps[i].name))
    requires buf.Length == 4 + |EncodePairs(ps)|
    modifies buf
    ensures pos == buf.Length && buf[..] == old(buf[..4]) + EncodePairs(ps)
  {
    hide EncodePairs, EncodePair;
    pos := 4;
    NoPairs(ps);
    for i := 0 to |names|
      invariant pos == 4 + |EncodePairs(ps[..i])| && pos + |EncodePairs(ps[i..])| == buf.Length
      invariant buf[..pos] == old(buf[..4]) + EncodePairs(ps[..i])
    {
      StepPairs(ps, i);
      pos := WritePair(buf, pos, names[i], m[names[i]]);
      Associative(old(buf[..4]), EncodePairs(ps[..i]), EncodePair(ps[i]));
    }
    assert ps[..|names|] == ps;
    assert buf[..pos] == buf[..];
  }

  lemma StepPairs(ps: seq<Pair>, i: nat)
    requires i < |ps|
    ensures EncodePairs(ps[..i + 1]) == EncodePairs(ps[..i]) + EncodePair(ps[i])
    ensures |EncodePairs(ps[i..])| == PairSize(ps[i]) + |EncodePairs(ps[i + 1..])|
  {
    hide EncodePair;
    assert ps[..i + 1] == ps[..i] + [ps[i]];
    EncodePairsSnoc(ps[..i], ps[i]);
    assert ps[i..][1..] == ps[i + 1..];
  }

  lemma NoPairs(ps: seq<Pair>)
    ensures EncodePairs(ps[..0]) == [] && ps[0..] == ps
    ensures EncodePairs(ps[|ps|..]) == [] && ps[..|ps|] == ps
  {
  }

  /** Frames one pair at `pos`. */
  method WritePair(buf: array<byte>, pos: nat, name: Bytes, text: Bytes) returns (next: nat)
    requires pos + PairSize(Pair(name, text)) <= buf.Length
    modifies buf
    ensures next == pos + PairSize(Pair(name, text))
    ensures buf[..next] == old(buf[..pos]) + EncodePair(Pair(name, text))
  {
    hide LittleEndian;
    CopyInto(buf, pos, LittleEndian(|name|, 2));
    CopyInto(buf, pos + 2, LittleEndian(|text|, 4));
    CopyInto(buf, pos + 6, name);
    CopyInto(buf, pos + 6 + |name|, text);
    next := pos + 6 + |name| + |text|;
  }

  /** Decodes a block entry by entry into a map. */
  method ReadAttributes(buf: Bytes) returns (r: DecodeResult)
    ensures r == DecodeAttributes(buf)
  {
    hide Number, Named;
    if |buf| < 4 {
      return Invalid;
    }
    var count := Number(buf[..4]);
    if count > MAX_ATTRIBUTE_COUNT {
      return Invalid;
    }
    var attributes: Attributes := map[];
    var pos := 4;
    ghost var seen: seq<Pair> := [];
    for done := 0 to count
      invariant 4 <= pos <= |buf|
      invariant attributes == MapOf(seen)
      invariant DecodeBlock(buf) == DecodePairs(buf, pos, count - done, seen)
    {
      if |buf| - pos < PAIR_HEADER_SIZE {
        return UnexpectedEnd;
      }
      var nameLen := Number(buf[pos..pos + 2]);
      var textLen := Number(buf[pos + 2..pos + 6]);
      pos := pos + 6;
      if nameLen == 0 || nameLen > |buf| - pos {
        return Invalid;
      }
      var name := buf[pos..pos + nameLen];
      pos := pos + nameLen;
      if textLen > |buf| - pos {
        return UnexpectedEnd;
      }
      MapOfKeys(seen, name);
      if name in attributes {
        return Invalid;
      }
      attributes := attributes[name := buf[pos..pos + textLen]];
      seen := seen + [Pair(name, buf[pos..pos + textLen])];
      assert seen[..|seen| - 1] + [Pair(name, buf[pos..pos + textLen])] == seen;
      pos := pos + textLen;
    }
    if pos != |buf| {
      return Invalid;
    }
    r := Map(attributes);
  }
}
