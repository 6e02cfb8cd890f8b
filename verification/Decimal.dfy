/**
 The decimal numerals and flag words version 3 fields go through: `strconv.FormatInt`,
 `strconv.ParseInt` in base 10 at 64 bits, `strconv.FormatBool` and `strconv.ParseBool`.
 Also the two's-complement 64-bit integers of the legacy formats.
 */
module Decimal {
  import opened Bytes

  const MAX_INT64 := 0x7FFF_FFFF_FFFF_FFFF
  const MIN_INT64 := -0x8000_0000_0000_0000

  predicate IsInt64(i: int) { MIN_INT64 <= i <= MAX_INT64 }

  const PLUS: byte := 43
  const MINUS: byte := 45
  const ZERO: byte := 48

  /** The shortest numeral of `n`. */
  function FormatNat(n: nat): (s: Bytes)
    ensures |s| > 0
  {
    if n < 10 then [ZERO + n] else FormatNat(n / 10) + [ZERO + n % 10]
  }

  function FormatInt(i: int): (s: Bytes)
    ensures |s| > 0
  {
    if i < 0 then [MINUS] + FormatNat(-i) else FormatNat(i)
  }

  predicate IsDigit(b: byte) { ZERO <= b <= ZERO + 9 }

  predicate AllDigits(s: Bytes) {
    forall i :: 0 <= i < |s| ==> IsDigit(s[i])
  }

  /** The value of a digit string, most significant digit first. */
  function DigitsValue(s: Bytes): nat
    requires AllDigits(s)
  {
    if |s| == 0 then 0 else 10 * DigitsValue(s[..|s| - 1]) + (s[|s| - 1] - ZERO)
  }

  function Unsigned(s: Bytes): Bytes {
    if |s| > 0 && (s[0] == PLUS || s[0] == MINUS) then s[1..] else s
  }

  predicate Negative(s: Bytes) { |s| > 0 && s[0] == MINUS }

  /** Parses an optionally signed decimal numeral; `None` when it is malformed or out of range. */
  function ParseInt(s: Bytes): (r: Option<int>)
    ensures r.Some? ==> IsInt64(r.value)
  {
    var digits := Unsigned(s);
    if |digits| == 0 || !AllDigits(digits) then None
    else
      var n: int := DigitsValue(digits);
      var i := if Negative(s) then -n else n;
      if IsInt64(i) then Some(i) else None
  }

  lemma {:induction false} FormatNatDigits(n: nat)
    ensures AllDigits(FormatNat(n)) && DigitsValue(FormatNat(n)) == n
  {
    if n >= 10 {
      FormatNatDigits(n / 10);
      var s := FormatNat(n);
      assert s[..|s| - 1] == FormatNat(n / 10);
    } else {
      assert FormatNat(n)[..0] == [];
    }
  }

  lemma {:induction false} FormatNatShortest(n: nat)
    ensures AllDigits(FormatNat(n)) && DigitsValue(FormatNat(n)) == n
    ensures FormatNat(n)[0] == ZERO ==> FormatNat(n) == [ZERO]
  {
    FormatNatDigits(n);
    if n >= 10 {
      FormatNatShortest(n / 10);
      assert FormatNat(n)[0] == FormatNat(n / 10)[0];
    }
  }

  /** The numeral of a number: a minus exactly when it is negative, and its digits without a leading zero. */
  lemma FormatIntShape(i: int)
    ensures var s := FormatInt(i);
      var digits := if i < 0 then s[1..] else s;
      && (i < 0 ==> s[0] == 45)
      && |digits| > 0 && AllDigits(digits) && DigitsValue(digits) == (if i < 0 then -i else i)
      && (digits[0] == 48 ==> i == 0 && digits == [48])
  {
    hide FormatNat;
    FormatNatShortest(if i < 0 then -i else i);
    if i < 0 {
      assert FormatInt(i)[1..] == FormatNat(-i);
    }
    assert DigitsValue([ZERO]) == 0 by { assert [ZERO][..0] == []; }
  }

  /** Parsing what was formatted gives the number back. */
  lemma ParseOfFormat(i: int)
    requires IsInt64(i)
    ensures ParseInt(FormatInt(i)) == Some(i)
  {
    hide FormatNat;
    if i < 0 {
      FormatNatDigits(-i);
      assert FormatInt(i)[1..] == FormatNat(-i);
    } else {
      FormatNatDigits(i);
      assert IsDigit(FormatNat(i)[0]);
    }
  }

  function Zeros(k: nat): (z: Bytes)
    ensures |z| == k
  {
    seq(k, i => ZERO)
  }

  /** `s` is a numeral of `i`: a sign, any number of leading zeros, and the shortest digits. */
  ghost predicate Denotes(s: Bytes, sign: Bytes, k: nat, i: int) {
    && s == sign + Zeros(k) + FormatNat(if i < 0 then -i else i)
    && (sign == [] || sign == [PLUS] || sign == [MINUS])
    && (i < 0 ==> sign == [MINUS])
    && (i > 0 ==> sign != [MINUS])
  }

  lemma {:induction false} DigitsAreNumeral(s: Bytes) returns (k: nat)
    requires |s| > 0 && AllDigits(s)
    ensures s == Zeros(k) + FormatNat(DigitsValue(s))
  {
    var d := s[|s| - 1];
    if |s| == 1 {
      assert s[..0] == [];
      k := 0;
      assert s == [d];
    } else {
      var init := s[..|s| - 1];
      k := DigitsAreNumeral(init);
      assert s == init + [d];
      var m := DigitsValue(init);
      if m == 0 {
        assert init == Zeros(k + 1);
        k := k + 1;
      } else {
        assert DigitsValue(s) / 10 == m && DigitsValue(s) % 10 == d - ZERO;
        Associative(Zeros(k), FormatNat(m), [d]);
      }
    }
  }

  lemma {:induction false} NumeralDigits(k: nat, n: nat)
    ensures AllDigits(Zeros(k) + FormatNat(n)) && DigitsValue(Zeros(k) + FormatNat(n)) == n
  {
    var s := Zeros(k) + FormatNat(n);
    FormatNatDigits(n);
    if n < 10 {
      assert s[..|s| - 1] == Zeros(k);
      ZerosValue(k);
    } else {
      NumeralDigits(k, n / 10);
      assert s[..|s| - 1] == Zeros(k) + FormatNat(n / 10);
    }
  }

  lemma {:induction false} ZerosValue(k: nat)
    ensures AllDigits(Zeros(k)) && DigitsValue(Zeros(k)) == 0
  {
    if k > 0 {
      ZerosValue(k - 1);
      assert Zeros(k)[..k - 1] == Zeros(k - 1);
    }
  }

  lemma ParsedIsNumeral(s: Bytes, i: int)
    requires ParseInt(s) == Some(i)
    ensures exists sign: Bytes, k: nat :: Denotes(s, sign, k, i)
  {
    hide FormatNat, Zeros, ParseInt, AllDigits, DigitsValue, Unsigned;
    var sign := SignAndDigits(s, i);
    var k := DigitsAreNumeral(Unsigned(s));
    Associative(sign, Zeros(k), FormatNat(if i < 0 then -i else i));
    assert Denotes(s, sign, k, i);
  }

  /** What the parser has seen when it accepts. */
  lemma SignAndDigits(s: Bytes, i: int) returns (sign: Bytes)
    requires ParseInt(s) == Some(i)
    ensures s == sign + Unsigned(s) && (sign == [] || sign == [PLUS] || sign == [MINUS])
    ensures |Unsigned(s)| > 0 && AllDigits(Unsigned(s))
    ensures sign == [MINUS] ==> i + DigitsValue(Unsigned(s)) == 0
    ensures sign != [MINUS] ==> i == DigitsValue(Unsigned(s))
  {
    hide AllDigits, DigitsValue;
    sign := s[..|s| - |Unsigned(s)|];
    assert sign == [] || sign == [s[0]];
  }

  lemma NumeralIsParsed(s: Bytes, sign: Bytes, k: nat, i: int)
    requires IsInt64(i) && Denotes(s, sign, k, i)
    ensures ParseInt(s) == Some(i)
  {
    hide FormatNat, Zeros, AllDigits;
    var n := if i < 0 then -i else i;
    var digits := Zeros(k) + FormatNat(n);
    NumeralDigits(k, n);
    Associative(sign, Zeros(k), FormatNat(n));
    assert s == sign + digits;
    FirstDigit(digits);
    if sign == [] {
      assert s == digits;
    } else {
      assert s[1..] == digits && s[0] == sign[0];
    }
  }

  lemma FirstDigit(digits: Bytes)
    requires |digits| > 0 && AllDigits(digits)
    ensures digits[0] != PLUS && digits[0] != MINUS
  {
    assert IsDigit(digits[0]);
  }

  /** The parser accepts exactly the numerals of 64-bit integers, and reads them as what they denote. */
  lemma ParseIntIff(s: Bytes, i: int)
    ensures ParseInt(s) == Some(i) <==> IsInt64(i) && exists sign: Bytes, k: nat :: Denotes(s, sign, k, i)
  {
    hide ParseInt, Denotes;
    if ParseInt(s) == Some(i) {
      ParsedIsNumeral(s, i);
    }
    forall sign: Bytes, k: nat | IsInt64(i) && Denotes(s, sign, k, i)
      ensures ParseInt(s) == Some(i)
    {
      NumeralIsParsed(s, sign, k, i);
    }
  }

  // --------------------------------------------------------------- flags

  const TRUE: Bytes := [116, 114, 117, 101]
  const FALSE: Bytes := [102, 97, 108, 115, 101]

  function FormatBool(b: bool): Bytes {
    if b then TRUE else FALSE
  }

  /** The spellings of a flag: 1 t T TRUE true True, and 0 f F FALSE false False. */
  function ParseBool(s: Bytes): Option<bool> {
    if s in [[49], [116], [84], [84, 82, 85, 69], TRUE, [84, 114, 117, 101]] then Some(true)
    else if s in [[48], [102], [70], [70, 65, 76, 83, 69], FALSE, [70, 97, 108, 115, 101]] then Some(false)
    else None
  }

  /** The spellings of true: 1, t, T, TRUE, true, True. */
  predicate IsTrueText(s: Bytes) {
    || s == [49] || s == [116] || s == [84]
    || s == [84, 82, 85, 69] || s == [116, 114, 117, 101] || s == [84, 114, 117, 101]
  }

  /** The spellings of false: 0, f, F, FALSE, false, False. */
  predicate IsFalseText(s: Bytes) {
    || s == [48] || s == [102] || s == [70]
    || s == [70, 65, 76, 83, 69] || s == [102, 97, 108, 115, 101] || s == [70, 97, 108, 115, 101]
  }

  /** The parser knows these twelve spellings and no other. */
  lemma ParseBoolIff(s: Bytes)
    ensures ParseBool(s) == Some(true) <==> IsTrueText(s)
    ensures ParseBool(s) == Some(false) <==> IsFalseText(s)
    ensures ParseBool(s) == None <==> !IsTrueText(s) && !IsFalseText(s)
  {
    if IsFalseText(s) {
      assert |s| == 1 || |s| == 5;
    }
  }

  lemma ParseOfFormatBool(b: bool)
    ensures ParseBool(FormatBool(b)) == Some(b) && FormatBool(b) != []
  {
    assert FALSE !in [[49], [116], [84], [84, 82, 85, 69], TRUE, [84, 114, 117, 101]] by {
      assert |FALSE| == 5;
    }
  }

  // --------------------------------------------------------------- 64-bit integers

  function ToUint64(i: int): (n: nat)
    requires IsInt64(i)
    ensures n < 0x1_0000_0000_0000_0000 && n == i % 0x1_0000_0000_0000_0000
  {
    if i < 0 then i + 0x1_0000_0000_0000_0000 else i
  }

  function ToInt64(n: nat): (i: int)
    requires n < 0x1_0000_0000_0000_0000
    ensures IsInt64(i) && i % 0x1_0000_0000_0000_0000 == n
  {
    if n <= MAX_INT64 then n else n - 0x1_0000_0000_0000_0000
  }

  lemma FormatIntSize(i: int)
    requires IsInt64(i)
    ensures |FormatInt(i)| <= 20
  {
    hide FormatNat, Power10;
    Power10Of19();
    FormatNatSize(if i < 0 then -i else i, 19);
  }

  lemma Power10Of19()
    ensures Power10(19) == 10_000_000_000_000_000_000
  {
    assert Power10(5) == 100_000;
    assert Power10(10) == 10_000_000_000;
    assert Power10(15) == 1_000_000_000_000_000;
  }

  function Power10(k: nat): nat {
    if k == 0 then 1 else 10 * Power10(k - 1)
  }

  lemma {:induction false} FormatNatSize(n: nat, k: nat)
    requires n < Power10(k) && k >= 1
    ensures |FormatNat(n)| <= k
  {
    if n >= 10 {
      assert k >= 2 by { assert Power10(1) == 10; }
      FormatNatSize(n / 10, k - 1);
    }
  }
}
