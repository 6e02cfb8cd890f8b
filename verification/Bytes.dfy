/**
 Bytes and the fixed-width little-endian integers of the log format.
 A Go string is a sequence of bytes, so keys, attribute names and values are all `Bytes`.
 */
module Bytes {

  type byte = x: int | 0 <= x < 256

  type Bytes = seq<byte>

  datatype Option<+T> = None | Some(value: T) {
    predicate IsFailure() { None? }

    function PropagateFailure<U>(): Option<U>
      requires None?
    {
      None
    }

    function Extract(): T
      requires Some?
    {
      value
    }
  }

  /** 256 to the power of `width`: how many values `width` bytes can hold. */
  function Radix(width: nat): (r: nat)
    ensures r >= 1
  {
    if width == 0 then 1 else 256 * Radix(width - 1)
  }

  /** The `width` low-order bytes of `n`, least significant first. */
  function LittleEndian(n: nat, width: nat): (b: Bytes)
    ensures |b| == width
  {
    if width == 0 then [] else [n % 256] + LittleEndian(n / 256, width - 1)
  }

  /** The number a little-endian byte sequence denotes. */
  function Number(b: Bytes): (n: nat)
    ensures n < Radix(|b|)
  {
    if |b| == 0 then 0 else b[0] + 256 * Number(b[1..])
  }

  /** Writing a number that fits and reading it back gives the number. */
  lemma {:induction false} NumberOfLittleEndian(n: nat, width: nat)
    requires n < Radix(width)
    ensures Number(LittleEndian(n, width)) == n
  {
    if width > 0 {
      NumberOfLittleEndian(n / 256, width - 1);
      assert LittleEndian(n, width)[1..] == LittleEndian(n / 256, width - 1);
    }
  }

  /** Reading bytes as a number and writing it at the same width gives the bytes. */
  lemma {:induction false} LittleEndianOfNumber(b: Bytes)
    ensures LittleEndian(Number(b), |b|) == b
  {
    if |b| > 0 {
      LittleEndianOfNumber(b[1..]);
      assert Number(b) % 256 == b[0] && Number(b) / 256 == Number(b[1..]);
      assert b == [b[0]] + b[1..];
    }
  }

  /** The first byte of a field is the least significant one. */
  lemma PlaceValues(b: Bytes)
    ensures |b| == 2 ==> Number(b) == (b[0] as int) + 0x100 * (b[1] as int)
    ensures |b| == 4 ==>
      Number(b) == (b[0] as int) + 0x100 * (b[1] as int) + 0x1_0000 * (b[2] as int) + 0x100_0000 * (b[3] as int)
  {
    if |b| == 4 {
      assert b[1..][0] == b[1] && b[1..][1..] == b[2..];
      assert b[2..][0] == b[2] && b[2..][1..] == b[3..];
      assert b[3..][0] == b[3] && b[3..][1..] == [];
    } else if |b| == 2 {
      assert b[1..][0] == b[1] && b[1..][1..] == [];
    }
  }

  /** Different byte sequences of one length denote different numbers. */
  lemma NumberInjective(a: Bytes, b: Bytes)
    requires |a| == |b| && Number(a) == Number(b)
    ensures a == b
  {
    LittleEndianOfNumber(a);
    LittleEndianOfNumber(b);
  }

  lemma RadixValues()
    ensures Radix(2) == 0x1_0000
    ensures Radix(4) == 0x1_0000_0000
    ensures Radix(8) == 0x1_0000_0000_0000_0000
  {
    assert Radix(1) == 256 && Radix(3) == 0x100_0000;
    assert Radix(5) == 0x100_0000_0000 && Radix(6) == 0x1_0000_0000_0000 && Radix(7) == 0x100_0000_0000_0000;
  }

  lemma Associative(a: Bytes, b: Bytes, c: Bytes)
    ensures a + (b + c) == (a + b) + c
  {
  }

  lemma PrefixOfConcat(a: Bytes, b: Bytes, n: nat)
    requires n <= |a|
    ensures (a + b)[..n] == a[..n]
  {
  }

  /** Adjacent slices join. */
  lemma Join(data: Bytes, i: nat, j: nat, k: nat)
    requires i <= j <= k <= |data|
    ensures data[i..k] == data[i..j] + data[j..k]
  {
  }

  /** A slice of a slice. */
  lemma SubSlice(data: Bytes, i: nat, k: nat, a: nat, b: nat)
    requires i <= k <= |data| && a <= b <= k - i
    ensures data[i..k][a..b] == data[i + a..i + b]
  {
    var s, t := data[i..k][a..b], data[i + a..i + b];
    assert forall j :: 0 <= j < b - a ==> s[j] == data[i + a + j] == t[j];
  }

  /** Sequences that share a prefix share its slices. */
  lemma SharedSlice(a: Bytes, b: Bytes, n: nat, i: nat, j: nat)
    requires n <= |a| && n <= |b| && a[..n] == b[..n] && i <= j <= n
    ensures a[i..j] == b[i..j]
  {
    assert forall k :: 0 <= k < n ==> a[..n][k] == a[k] && b[..n][k] == b[k];
  }

  /** What sits at `pos` when a concatenation does. */
  lemma Split(data: Bytes, pos: nat, a: Bytes, b: Bytes)
    requires pos + |a| + |b| <= |data|
    requires data[pos..pos + |a| + |b|] == a + b
    ensures data[pos..pos + |a|] == a
    ensures data[pos + |a|..pos + |a| + |b|] == b
  {
    var w := data[pos..pos + |a| + |b|];
    assert data[pos..pos + |a|] == w[..|a|];
    assert data[pos + |a|..pos + |a| + |b|] == w[|a|..];
  }
}
