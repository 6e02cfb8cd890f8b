/**
 CRC-32C (Castagnoli), the record checksum: section 12.1 of RFC 3720.
 The state is kept un-inverted between bytes; the inversions at both ends are in `Checksum`.
 */
module Crc32c {
  import opened Bytes

  /** The Castagnoli polynomial, bit-reversed. */
  const POLYNOMIAL: bv32 := 0x82F6_3B78

  const ALL_ONES: bv32 := 0xFFFF_FFFF

  // The bit operations are named so that proofs above the bit level can treat them as symbols.

  function Xor(a: bv32, b: bv32): bv32 { a ^ b }

  function Half(a: bv32): bv32 { a >> 1 }

  predicate Odd(a: bv32) { a & 1 == 1 }

  function Low(b: byte): bv8 { b as bv8 }

  function Widen(b: bv8): bv32 { b as bv32 }

  function ToNat(s: bv32): nat { s as nat }

  /** Divides out one bit. */
  function BitStep(s: bv32): bv32 {
    if Odd(s) then Xor(Half(s), POLYNOMIAL) else Half(s)
  }

  function EightBits(s: bv32): bv32 {
    BitStep(BitStep(BitStep(BitStep(BitStep(BitStep(BitStep(BitStep(s))))))))
  }

  /** Folds one byte into the state. */
  function ByteStep(s: bv32, b: byte): bv32 {
    EightBits(Xor(s, Widen(Low(b))))
  }

  /** Folds a byte sequence into the state, first byte first. */
  function Update(s: bv32, data: Bytes): bv32
    decreases |data|
  {
    if |data| == 0 then s else Update(ByteStep(s, data[0]), data[1..])
  }

  /** The checksum of `data`, as stored in a record's last four bytes. */
  function Checksum(data: Bytes): (c: nat)
    ensures c < 0x1_0000_0000
  {
    ToNat(Xor(Update(ALL_ONES, data), ALL_ONES))
  }

  /** Hashing in chunks gives the hash of the whole. */
  lemma {:induction false} UpdateConcat(s: bv32, a: Bytes, b: Bytes)
    ensures Update(s, a + b) == Update(Update(s, a), b)
    decreases |a|
  {
    hide ByteStep;
    if |a| == 0 {
      assert a + b == b;
    } else {
      assert (a + b)[1..] == a[1..] + b;
      UpdateConcat(ByteStep(s, a[0]), a[1..], b);
    }
  }

  lemma CheckSteps()
    ensures ByteStep(0xFFFF_FFFF, 49) == 0x6F0A_661C
    ensures ByteStep(0x6F0A_661C, 50) == 0x8CAA_3B9F
    ensures ByteStep(0x8CAA_3B9F, 51) == 0xEF84_D04D
    ensures ByteStep(0xEF84_D04D, 52) == 0x09C5_0B11
    ensures ByteStep(0x09C5_0B11, 53) == 0xE72E_DCCA
    ensures ByteStep(0xE72E_DCCA, 54) == 0xBECA_8E79
    ensures ByteStep(0xBECA_8E79, 55) == 0xEDBD_6815
    ensures ByteStep(0xEDBD_6815, 56) == 0x9F78_7F65
    ensures ByteStep(0x9F78_7F65, 57) == 0x1CF9_6D7C
  {
  }

  lemma UpdateNothing(s: bv32)
    ensures Update(s, []) == s
  {
  }

  lemma UpdateStep(s: bv32, data: Bytes, s': bv32)
    requires |data| > 0 && ByteStep(s, data[0]) == s'
    ensures Update(s, data) == Update(s', data[1..])
  {
    hide ByteStep;
  }

  lemma CheckUpdate()
    ensures Update(0xFFFF_FFFF, [49, 50, 51, 52, 53, 54, 55, 56, 57]) == 0x1CF9_6D7C
  {
    hide ByteStep, Update;
    var digits: Bytes := [49, 50, 51, 52, 53, 54, 55, 56, 57];
    CheckSteps();
    assert digits[0..] == digits;
    assert digits[0..][1..] == digits[1..];
    UpdateStep(0xFFFF_FFFF, digits[0..], 0x6F0A_661C);
    assert digits[1..][1..] == digits[2..];
    UpdateStep(0x6F0A_661C, digits[1..], 0x8CAA_3B9F);
    assert digits[2..][1..] == digits[3..];
    UpdateStep(0x8CAA_3B9F, digits[2..], 0xEF84_D04D);
    assert digits[3..][1..] == digits[4..];
    UpdateStep(0xEF84_D04D, digits[3..], 0x09C5_0B11);
    assert digits[4..][1..] == digits[5..];
    UpdateStep(0x09C5_0B11, digits[4..], 0xE72E_DCCA);
    assert digits[5..][1..] == digits[6..];
    UpdateStep(0xE72E_DCCA, digits[5..], 0xBECA_8E79);
    assert digits[6..][1..] == digits[7..];
    UpdateStep(0xBECA_8E79, digits[6..], 0xEDBD_6815);
    assert digits[7..][1..] == digits[8..];
    UpdateStep(0xEDBD_6815, digits[7..], 0x9F78_7F65);
    assert digits[8..][1..] == digits[9..];
    UpdateStep(0x9F78_7F65, digits[8..], 0x1CF9_6D7C);
    assert digits[9..] == [];
    UpdateNothing(0x1CF9_6D7C);
  }

  /** The published check value of CRC-32C: the checksum of the digits 1 to 9 in ASCII. */
  lemma CheckValue()
    ensures Checksum([49, 50, 51, 52, 53, 54, 55, 56, 57]) == 0xE306_9283
  {
    hide Update;
    CheckUpdate();
  }

  // --------------------------------------------------------------- bit level

  lemma XorLaws(x: bv32, y: bv32, z: bv32)
    ensures Xor(Xor(x, z), y) == Xor(Xor(x, y), z)
    ensures Xor(x, Xor(y, z)) == Xor(Xor(x, y), z)
    ensures Xor(Xor(x, z), Xor(y, z)) == Xor(x, y)
  {
  }

  lemma XorInjective(s: bv32, x: bv32, y: bv32)
    requires Xor(s, x) == Xor(s, y) || Xor(x, s) == Xor(y, s)
    ensures x == y
  {
  }

  lemma OddXor(x: bv32, y: bv32)
    ensures Odd(Xor(x, y)) <==> Odd(x) != Odd(y)
  {
    assert (x ^ y) & 1 == (x & 1) ^ (y & 1);
  }

  lemma HalfXor(x: bv32, y: bv32)
    ensures Half(Xor(x, y)) == Xor(Half(x), Half(y))
  {
  }

  lemma LowValue(b: byte)
    ensures b as bv8 as int == b
  {
    assert b % 256 == b;
  }

  lemma LowOfByte(b: byte)
    ensures Low(b) as int == b
  {
    LowValue(b);
    assert Low(b) as int == b as bv8 as int;
  }

  lemma LowInjective(a: byte, b: byte)
    requires Low(a) == Low(b)
    ensures a == b
  {
    hide Low;
    LowOfByte(a);
    LowOfByte(b);
  }

  lemma WidenInjective(x: bv8, y: bv8)
    requires Widen(x) == Widen(y)
    ensures x == y
  {
  }

  lemma ToNatInjective(a: bv32, b: bv32)
    requires ToNat(a) == ToNat(b)
    ensures a == b
  {
    assert (a as int) as bv32 == a;
    assert (b as int) as bv32 == b;
  }

  // --------------------------------------------------------------- injectivity

  /** The top bit of the result tells whether the polynomial was subtracted. */
  lemma BitStepInjective(a: bv32, b: bv32)
    requires BitStep(a) == BitStep(b)
    ensures a == b
  {
  }

  lemma EightBitsInjective(a: bv32, b: bv32)
    requires EightBits(a) == EightBits(b)
    ensures a == b
  {
    hide BitStep;
    var a1, b1 := BitStep(a), BitStep(b);
    var a2, b2 := BitStep(a1), BitStep(b1);
    var a3, b3 := BitStep(a2), BitStep(b2);
    var a4, b4 := BitStep(a3), BitStep(b3);
    var a5, b5 := BitStep(a4), BitStep(b4);
    var a6, b6 := BitStep(a5), BitStep(b5);
    var a7, b7 := BitStep(a6), BitStep(b6);
    BitStepInjective(a7, b7);
    BitStepInjective(a6, b6);
    BitStepInjective(a5, b5);
    BitStepInjective(a4, b4);
    BitStepInjective(a3, b3);
    BitStepInjective(a2, b2);
    BitStepInjective(a1, b1);
    BitStepInjective(a, b);
  }

  /** For a fixed byte the step permutes the states; for a fixed state it separates the bytes. */
  lemma ByteStepInjective(s: bv32, t: bv32, a: byte, b: byte)
    requires ByteStep(s, a) == ByteStep(t, b)
    ensures a == b ==> s == t
    ensures s == t ==> a == b
  {
    hide EightBits, Widen, Low, Xor;
    EightBitsInjective(Xor(s, Widen(Low(a))), Xor(t, Widen(Low(b))));
    if a == b {
      XorInjective(Widen(Low(a)), s, t);
    } else if s == t {
      XorInjective(s, Widen(Low(a)), Widen(Low(b)));
      WidenInjective(Low(a), Low(b));
      LowInjective(a, b);
    }
  }

  /** Different states stay different under the same bytes. */
  lemma {:induction false} UpdateInjective(s: bv32, t: bv32, data: Bytes)
    requires Update(s, data) == Update(t, data)
    ensures s == t
    decreases |data|
  {
    hide ByteStep;
    if |data| > 0 {
      UpdateInjective(ByteStep(s, data[0]), ByteStep(t, data[0]), data[1..]);
      ByteStepInjective(s, t, data[0], data[0]);
    }
  }

  /** Two byte sequences that differ in exactly one place have different hashes. */
  lemma OneByteChangesUpdate(s: bv32, data: Bytes, i: nat, b: byte)
    requires i < |data| && b != data[i]
    ensures Update(s, data[i := b]) != Update(s, data)
  {
    hide ByteStep;
    var before, after := data[..i], data[i + 1..];
    assert data == before + ([data[i]] + after);
    assert data[i := b] == before + ([b] + after);
    var t := Update(s, before);
    UpdateConcat(s, before, [data[i]] + after);
    UpdateConcat(s, before, [b] + after);
    assert ([data[i]] + after)[1..] == after && ([b] + after)[1..] == after;
    if Update(s, data[i := b]) == Update(s, data) {
      UpdateInjective(ByteStep(t, b), ByteStep(t, data[i]), after);
      ByteStepInjective(t, t, b, data[i]);
    }
  }

  /** Changing one byte always changes the checksum. */
  lemma OneByteChangesChecksum(data: Bytes, i: nat, b: byte)
    requires i < |data| && b != data[i]
    ensures Checksum(data[i := b]) != Checksum(data)
  {
    hide ByteStep, ToNat, Xor;
    var u, v := Update(ALL_ONES, data[i := b]), Update(ALL_ONES, data);
    OneByteChangesUpdate(ALL_ONES, data, i, b);
    if Checksum(data[i := b]) == Checksum(data) {
      ToNatInjective(Xor(u, ALL_ONES), Xor(v, ALL_ONES));
      XorInjective(ALL_ONES, u, v);
    }
  }

  // --------------------------------------------------------------- lookup-table form

  lemma BitStepLinear(x: bv32, y: bv32)
    ensures BitStep(Xor(x, y)) == Xor(BitStep(x), BitStep(y))
  {
    hide Xor, Half, Odd;
    OddXor(x, y);
    HalfXor(x, y);
    XorLaws(Half(x), Half(y), POLYNOMIAL);
  }

  lemma EightBitsLinear(x: bv32, y: bv32)
    ensures EightBits(Xor(x, y)) == Xor(EightBits(x), EightBits(y))
  {
    hide BitStep, Xor;
    var x1, y1 := BitStep(x), BitStep(y);
    var x2, y2 := BitStep(x1), BitStep(y1);
    var x3, y3 := BitStep(x2), BitStep(y2);
    var x4, y4 := BitStep(x3), BitStep(y3);
    var x5, y5 := BitStep(x4), BitStep(y4);
    var x6, y6 := BitStep(x5), BitStep(y5);
    var x7, y7 := BitStep(x6), BitStep(y6);
    BitStepLinear(x, y);
    BitStepLinear(x1, y1);
    BitStepLinear(x2, y2);
    BitStepLinear(x3, y3);
    BitStepLinear(x4, y4);
    BitStepLinear(x5, y5);
    BitStepLinear(x6, y6);
    BitStepLinear(x7, y7);
  }

  function LowBits(s: bv32): bv32 { s & 0xFF }

  function HighBits(s: bv32): bv32 { s & 0xFFFF_FF00 }

  function Shift8(s: bv32): bv32 { s >> 8 }

  lemma EightBitsOfHigh(s: bv32)
    ensures EightBits(HighBits(s)) == Shift8(s)
  {
  }

  lemma SplitLowHigh(s: bv32, b: bv8)
    ensures Xor(s, Widen(b)) == Xor(LowBits(Xor(s, Widen(b))), HighBits(s))
  {
  }

  /** The lookup-table step, where table entry `i` is `EightBits(i)`, is the bitwise step. */
  lemma TableStep(s: bv32, b: byte)
    ensures ByteStep(s, b) == Xor(EightBits(LowBits(Xor(s, Widen(Low(b))))), Shift8(s))
  {
    hide EightBits, Widen, Xor, LowBits, HighBits, Shift8, Low;
    SplitLowHigh(s, Low(b));
    EightBitsLinear(LowBits(Xor(s, Widen(Low(b)))), HighBits(s));
    EightBitsOfHigh(s);
  }

  // --------------------------------------------------------------- every checksum can be reached

  function Double(y: bv32): bv32 { y << 1 }

  predicate TopClear(y: bv32) { y & 0x8000_0000 == 0 }

  function WithOne(y: bv32): bv32 { y | 1 }

  function Unbit(y: bv32): bv32 {
    if TopClear(y) then Double(y) else WithOne(Double(Xor(y, POLYNOMIAL)))
  }

  lemma HalfOfDouble(y: bv32)
    requires TopClear(y)
    ensures Half(Double(y)) == y
  {
  }

  lemma HalfOfDoubleAndOne(y: bv32)
    requires TopClear(y)
    ensures Half(WithOne(Double(y))) == y
  {
  }

  lemma DoubleIsEven(y: bv32)
    ensures !Odd(Double(y))
  {
  }

  lemma WithOneIsOdd(y: bv32)
    ensures Odd(WithOne(y))
  {
  }

  lemma TopFlips(y: bv32)
    ensures TopClear(Xor(y, POLYNOMIAL)) <==> !TopClear(y)
  {
  }

  lemma BitStepOfUnbit(y: bv32)
    ensures BitStep(Unbit(y)) == y
  {
    hide Half, Double, WithOne, Odd, TopClear, Xor;
    if TopClear(y) {
      HalfOfDouble(y);
      DoubleIsEven(y);
    } else {
      TopFlips(y);
      HalfOfDoubleAndOne(Xor(y, POLYNOMIAL));
      WithOneIsOdd(Double(Xor(y, POLYNOMIAL)));
      XorTwice(y, POLYNOMIAL);
    }
  }

  function UnEight(y: bv32): bv32 {
    Unbit(Unbit(Unbit(Unbit(Unbit(Unbit(Unbit(Unbit(y))))))))
  }

  lemma EightBitsOfUnEight(y: bv32)
    ensures EightBits(UnEight(y)) == y
  {
    hide BitStep, Unbit;
    var y1 := Unbit(y);
    var y2 := Unbit(y1);
    var y3 := Unbit(y2);
    var y4 := Unbit(y3);
    var y5 := Unbit(y4);
    var y6 := Unbit(y5);
    var y7 := Unbit(y6);
    BitStepOfUnbit(y);
    BitStepOfUnbit(y1);
    BitStepOfUnbit(y2);
    BitStepOfUnbit(y3);
    BitStepOfUnbit(y4);
    BitStepOfUnbit(y5);
    BitStepOfUnbit(y6);
    BitStepOfUnbit(y7);
  }

  /** The state from which `data` leads to `y`. */
  lemma {:induction false} StateBefore(data: Bytes, y: bv32) returns (x: bv32)
    ensures Update(x, data) == y
    decreases |data|
  {
    hide EightBits, UnEight, Widen, Low, Xor;
    if |data| == 0 {
      x := y;
    } else {
      var next := StateBefore(data[1..], y);
      x := Xor(UnEight(next), Widen(Low(data[0])));
      EightBitsOfUnEight(next);
      XorTwice(UnEight(next), Widen(Low(data[0])));
    }
  }

  lemma XorTwice(x: bv32, y: bv32)
    ensures Xor(Xor(x, y), y) == x
    ensures Xor(y, Xor(x, y)) == x
  {
  }

  function Bottom(r: bv32): bv8 { (r & 0xFF) as bv8 }

  /** The lowest byte of a word. */
  function LowByte(r: bv32): byte { Value8(Bottom(r)) }

  function Value8(x: bv8): byte { x as int }

  lemma LowOfValue(x: bv8)
    ensures Low(Value8(x)) == x
  {
    assert (x as int) as bv8 == x;
  }

  /** The bytes of a word, lowest first. */
  function WordBytes(r: bv32): (w: Bytes)
    ensures |w| == 4
  {
    [LowByte(r), LowByte(Shift8(r)), LowByte(Shift8(Shift8(r))), LowByte(Shift8(Shift8(Shift8(r))))]
  }

  lemma SplitWord(s: bv32, r: bv32)
    ensures Xor(s, r) == Xor(Xor(s, Widen(Bottom(r))), HighBits(r))
  {
  }

  /** One byte of a word is folded in, and the rest moves down by one byte. */
  lemma WordStep(s: bv32, r: bv32)
    ensures EightBits(Xor(s, r)) == Xor(ByteStep(s, LowByte(r)), Shift8(r))
  {
    hide EightBits, Widen, Xor, HighBits, Shift8, Low, Bottom, Value8;
    SplitWord(s, r);
    LowOfValue(Bottom(r));
    EightBitsLinear(Xor(s, Widen(Bottom(r))), HighBits(r));
    EightBitsOfHigh(r);
  }

  lemma NothingLeft(r: bv32, x: bv32)
    ensures Xor(x, Shift8(Shift8(Shift8(Shift8(r))))) == x
  {
  }

  lemma UpdateOfFour(s: bv32, a: byte, b: byte, c: byte, d: byte)
    ensures Update(s, [a, b, c, d]) == ByteStep(ByteStep(ByteStep(ByteStep(s, a), b), c), d)
  {
    hide ByteStep;
    assert [a, b, c, d][1..] == [b, c, d] && [b, c, d][1..] == [c, d] && [c, d][1..] == [d] && [d][1..] == [];
    var s1 := ByteStep(s, a);
    var s2 := ByteStep(s1, b);
    var s3 := ByteStep(s2, c);
    assert Update(s3, [d]) == ByteStep(s3, d);
    assert Update(s2, [c, d]) == Update(s3, [d]);
    assert Update(s1, [b, c, d]) == Update(s2, [c, d]);
  }

  /** Folding in a word byte by byte is folding it in at once. */
  lemma WordUpdate(s: bv32, r: bv32)
    ensures Update(s, WordBytes(r)) == EightBits(EightBits(EightBits(EightBits(Xor(s, r)))))
  {
    hide EightBits, ByteStep, LowByte, Xor, Shift8;
    var r1 := Shift8(r);
    var r2 := Shift8(r1);
    var r3 := Shift8(r2);
    var s1 := ByteStep(s, LowByte(r));
    var s2 := ByteStep(s1, LowByte(r1));
    var s3 := ByteStep(s2, LowByte(r2));
    WordStep(s, r);
    WordStep(s1, r1);
    WordStep(s2, r2);
    WordStep(s3, r3);
    NothingLeft(r, ByteStep(s3, LowByte(r3)));
    UpdateOfFour(s, LowByte(r), LowByte(r1), LowByte(r2), LowByte(r3));
  }

  /** Four free bytes lead from any state to any other. */
  lemma FourBytesReach(s: bv32, y: bv32) returns (w: Bytes)
    ensures |w| == 4 && Update(s, w) == y
  {
    hide EightBits, UnEight, Xor, WordBytes;
    var z := UnEight(UnEight(UnEight(UnEight(y))));
    EightBitsOfUnEight(y);
    EightBitsOfUnEight(UnEight(y));
    EightBitsOfUnEight(UnEight(UnEight(y)));
    EightBitsOfUnEight(UnEight(UnEight(UnEight(y))));
    w := WordBytes(Xor(z, s));
    WordUpdate(s, Xor(z, s));
    XorTwice(z, s);
  }

  function FromNat(c: nat): bv32
    requires c < 0x1_0000_0000
  {
    c as bv32
  }

  lemma ToNatOfFromNat(c: nat)
    requires c < 0x1_0000_0000
    ensures ToNat(FromNat(c)) == c
  {
    assert c % 0x1_0000_0000 == c;
  }

  /** Whatever stands before and behind four free bytes, they can be chosen to give any checksum. */
  lemma FourBytesGiveChecksum(before: Bytes, after: Bytes, c: nat) returns (w: Bytes)
    requires c < 0x1_0000_0000
    ensures |w| == 4 && Checksum(before + w + after) == c
  {
    hide Update, Xor, ToNat, FromNat;
    var goal := Xor(FromNat(c), ALL_ONES);
    var middle := StateBefore(after, goal);
    var start := Update(ALL_ONES, before);
    w := FourBytesReach(start, middle);
    UpdateConcat(ALL_ONES, before, w);
    UpdateConcat(ALL_ONES, before + w, after);
    XorTwice(FromNat(c), ALL_ONES);
    ToNatOfFromNat(c);
  }
}
