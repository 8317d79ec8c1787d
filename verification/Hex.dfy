/** Hexadecimal text and machine words: the alphabet every mri module is written in. */
module Hex {
  import opened Common

  /** The exception codes of mri/core/try_catch.h that the modelled code raises. */
  datatype Exception = NoException | BufferOverrun | InvalidHexDigit | InvalidValue | InvalidArgument

  /** HexCharToNibble: -1 stands for the invalidHexDigitException. */
  function HexCharToNibble(c: byte): (n: int)
    ensures -1 <= n < 16
  {
    if 'a' as int <= c <= 'f' as int then c - 'a' as int + 10
    else if 'A' as int <= c <= 'F' as int then c - 'A' as int + 10
    else if '0' as int <= c <= '9' as int then c - '0' as int
    else -1
  }

  /** NibbleToHexChar: the digits are lower case. */
  function NibbleToHexChar(n: int): (c: byte)
    requires 0 <= n < 16
    ensures HexCharToNibble(c) == n
  {
    if n < 10 then '0' as int + n else 'a' as int + n - 10
  }

  const LOWER_DIGITS: string := "0123456789abcdef"
  const UPPER_DIGITS: string := "0123456789ABCDEF"

  /** A digit as the stub writes it. */
  predicate IsWritten(c: byte) {
    '0' as int <= c <= '9' as int || 'a' as int <= c <= 'f' as int
  }

  /** The characters read as digit n are those of the two alphabets at n and no others; the one
      written is the lower-case one. */
  lemma DigitAlphabets(n: nat, c: byte)
    requires n < 16
    ensures HexCharToNibble(c) == n <==> c == LOWER_DIGITS[n] as int || c == UPPER_DIGITS[n] as int
    ensures NibbleToHexChar(n) == LOWER_DIGITS[n] as int && IsWritten(NibbleToHexChar(n))
  {
  }

  predicate IsHexDigit(c: byte) {
    HexCharToNibble(c) >= 0
  }

  function ByteAsHex(b: byte): (s: seq<byte>)
    ensures |s| == 2
  {
    [NibbleToHexChar(b / 16), NibbleToHexChar(b % 16)]
  }

  /** The byte that two hex digits stand for. */
  function HexAsByte(hi: byte, lo: byte): (b: byte)
    requires IsHexDigit(hi) && IsHexDigit(lo)
  {
    HexCharToNibble(hi) * 16 + HexCharToNibble(lo)
  }

  lemma ByteHexRoundTrip(b: byte)
    ensures IsHexDigit(ByteAsHex(b)[0]) && IsHexDigit(ByteAsHex(b)[1])
    ensures HexAsByte(ByteAsHex(b)[0], ByteAsHex(b)[1]) == b
  {
  }

  /** A text with every byte spelled as two hex digits. */
  function TextAsHex(s: seq<byte>): (t: seq<byte>)
    ensures |t| == 2 * |s|
  {
    if s == [] then [] else TextAsHex(s[..|s| - 1]) + ByteAsHex(s[|s| - 1])
  }

  // ---------------------------------------------------------------- unsigned words

  /** One more than the largest value of a word of w bytes. */
  function Modulus(w: nat): (m: nat)
    ensures m > 0
  {
    if w == 0 then 1 else 256 * Modulus(w - 1)
  }

  /** A number as a word of w bytes keeps it. */
  function Truncate(x: nat, w: nat): (r: nat)
    ensures r < Modulus(w)
  {
    x % Modulus(w)
  }

  lemma TruncateSmall(x: nat, w: nat)
    ensures Truncate(x, w) == x <==> x < Modulus(w)
  {
    var m := Modulus(w);
    hide Modulus;
    if x < m {
      RemainderIsUnique(x, 0, x, m);
    }
  }

  /** value >> (8 * count) */
  function ShiftRightBytes(value: nat, count: nat): nat {
    if count == 0 then value else ShiftRightBytes(value, count - 1) / 256
  }

  /** The number of bytes the writer emits: at least one. */
  function ByteLength(value: nat): (n: nat)
    ensures n >= 1
  {
    if value < 256 then 1 else 1 + ByteLength(value / 256)
  }

  /** The low n bytes of value as hex text, most significant first. */
  function BytesAsHex(value: nat, n: nat): (s: seq<byte>)
    ensures |s| == 2 * n
  {
    if n == 0 then [] else BytesAsHex(value / 256, n - 1) + ByteAsHex(value % 256)
  }

  function UIntegerAsHex(value: nat): (s: seq<byte>)
    ensures |s| == 2 * ByteLength(value)
  {
    BytesAsHex(value, ByteLength(value))
  }

  /** The number a text of hex digits stands for. */
  function HexValue(s: seq<byte>): nat
    requires forall i :: 0 <= i < |s| ==> IsHexDigit(s[i])
  {
    if s == [] then 0 else
      assert IsHexDigit(s[|s| - 1]);
      16 * HexValue(s[..|s| - 1]) + HexCharToNibble(s[|s| - 1])
  }

  /** The length of the longest prefix that is all hex digits. */
  function HexPrefix(s: seq<byte>): (k: nat)
    ensures k <= |s| && (forall i :: 0 <= i < k ==> IsHexDigit(s[i]))
    ensures k < |s| ==> !IsHexDigit(s[k])
  {
    if s == [] || !IsHexDigit(s[0]) then 0 else 1 + HexPrefix(s[1..])
  }

  lemma {:induction false} BytesAsHexValue(value: nat, n: nat)
    requires n >= ByteLength(value)
    ensures forall i :: 0 <= i < 2 * n ==> IsHexDigit(BytesAsHex(value, n)[i])
    ensures HexValue(BytesAsHex(value, n)) == value
  {
    if value < 256 {
      ZeroBytes(n - 1);
    } else {
      BytesAsHexValue(value / 256, n - 1);
    }
    hide ByteAsHex, HexCharToNibble;
    AppendByte(BytesAsHex(value / 256, n - 1), value % 256);
  }

  lemma AppendByte(high: seq<byte>, b: byte)
    requires forall i :: 0 <= i < |high| ==> IsHexDigit(high[i])
    ensures var s := high + ByteAsHex(b);
            (forall i :: 0 <= i < |s| ==> IsHexDigit(s[i])) && HexValue(s) == 256 * HexValue(high) + b
  {
    ByteHexRoundTrip(b);
    var s, digits := high + ByteAsHex(b), ByteAsHex(b);
    hide ByteAsHex, HexCharToNibble;
    assert s[..|s| - 1] == high + [digits[0]] && s[..|s| - 1][..|s| - 2] == high;
  }

  lemma {:induction false} ZeroBytes(n: nat)
    ensures forall i :: 0 <= i < 2 * n ==> IsHexDigit(BytesAsHex(0, n)[i])
    ensures HexValue(BytesAsHex(0, n)) == 0
  {
    if n > 0 {
      ZeroBytes(n - 1);
      AppendByte(BytesAsHex(0, n - 1), 0);
    }
  }

  /** Printing then reading back: the reader sees exactly the digits the writer produced. */
  lemma UIntegerHexRoundTrip(value: nat, after: seq<byte>)
    requires after == [] || !IsHexDigit(after[0])
    ensures HexPrefix(UIntegerAsHex(value) + after) == |UIntegerAsHex(value)|
    ensures forall i :: 0 <= i < |UIntegerAsHex(value)| ==> IsHexDigit(UIntegerAsHex(value)[i])
    ensures HexValue(UIntegerAsHex(value)) == value
  {
    BytesAsHexValue(value, ByteLength(value));
    PrefixOfDigits(UIntegerAsHex(value), after);
  }

  lemma {:induction false} PrefixOfDigits(digits: seq<byte>, after: seq<byte>)
    requires forall i :: 0 <= i < |digits| ==> IsHexDigit(digits[i])
    requires after == [] || !IsHexDigit(after[0])
    ensures HexPrefix(digits + after) == |digits|
  {
    if digits == [] {
      assert digits + after == after;
    } else {
      assert (digits + after)[1..] == digits[1..] + after;
      PrefixOfDigits(digits[1..], after);
    }
  }

  lemma {:induction false} WordByteLength(value: nat, w: nat)
    requires w >= 1 && value < Modulus(w)
    ensures ByteLength(value) <= w
  {
    if value >= 256 {
      assert w >= 2;
      WordByteLength(value / 256, w - 1);
    }
  }

  lemma {:induction false} ShiftOut(value: nat, n: nat)
    requires n >= ByteLength(value)
    ensures ShiftRightBytes(value, n) == 0
    ensures n == ByteLength(value) && value > 0 ==> ShiftRightBytes(value, n - 1) > 0
  {
    if value < 256 {
      ShiftZero(value, n);
    } else {
      ShiftOut(value / 256, n - 1);
      ShiftFront(value, n - 1);
      ShiftFront(value, n - 2);
    }
  }

  lemma NextByteAsHex(value: nat, index: nat, n: nat)
    ensures BytesAsHex(ShiftRightBytes(value, index), n + 1)
         == BytesAsHex(ShiftRightBytes(value, index + 1), n) + ByteAsHex(ShiftRightBytes(value, index) % 256)
  {
  }

  /** The highest byte the writer emits is not zero, and every byte above it is. */
  lemma TopByte(value: nat)
    requires value > 0
    ensures forall i :: i >= ByteLength(value) ==> ShiftRightBytes(value, i) == 0
    ensures ShiftRightBytes(value, ByteLength(value) - 1) % 256 != 0
  {
    var n := ByteLength(value);
    forall i | i >= n ensures ShiftRightBytes(value, i) == 0 {
      ShiftOut(value, i);
    }
    ShiftOut(value, n);
    assert ShiftRightBytes(value, n) == ShiftRightBytes(value, n - 1) / 256;
  }

  lemma {:induction false} ShiftZero(value: nat, n: nat)
    requires value < 256 && n >= 1
    ensures ShiftRightBytes(value, n) == 0
  {
    if n > 1 {
      ShiftZero(value, n - 1);
    } else {
      assert ShiftRightBytes(value, 0) == value;
    }
  }

  lemma {:induction false} ShiftFront(value: nat, n: nat)
    ensures ShiftRightBytes(value, n + 1) == ShiftRightBytes(value / 256, n)
  {
    if n > 0 {
      ShiftFront(value, n - 1);
    }
  }

  lemma HexValueNext(s: seq<byte>, k: nat, w: nat)
    requires k < HexPrefix(s)
    ensures Truncate(HexValue(s[..k + 1]), w)
         == Truncate(16 * Truncate(HexValue(s[..k]), w) + HexCharToNibble(s[k]), w)
  {
    hide Truncate, HexPrefix, HexCharToNibble;
    assert s[..k + 1][..k] == s[..k];
    assert IsHexDigit(s[k]);
    PushDigit(HexValue(s[..k]), HexCharToNibble(s[k]), w);
  }

  /** One digit more, in word arithmetic. */
  lemma PushDigit(x: nat, n: nat, w: nat)
    ensures Truncate(16 * Truncate(x, w) + n, w) == Truncate(16 * x + n, w)
  {
    var m := Modulus(w);
    var q, r := x / m, x % m;
    var k := (16 * r + n) / m;
    var y := (16 * r + n) % m;
    assert 16 * x + n == (16 * q + k) * m + y by {
      assert x == q * m + r;
      assert 16 * r + n == k * m + y;
      assert 16 * (q * m + r) + n == (16 * q) * m + (16 * r + n);
      assert (16 * q + k) * m == (16 * q) * m + k * m;
    }
    RemainderIsUnique(16 * x + n, 16 * q + k, y, m);
  }
}
