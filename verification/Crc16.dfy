/** The CRC-16 of src/libs/CRC16.h (polynomial 0x1021, no reflection): the table-driven form is
    proved equal to a register fed one message bit at a time, the register to long division of
    polynomials over GF(2), and the code's error-detecting power is proved for all messages. */
module Crc16 {

  // ---------------------------------------------------------------- the bit-serial definition

  /** A register as its sixteen bits, most significant first. */
  type Reg = r: seq<bool> | |r| == 16 witness seq(16, _ => false)

  function Zeros(n: nat): (z: seq<bool>)
    ensures |z| == n
  {
    seq(n, _ => false)
  }

  function Xor(a: seq<bool>, b: seq<bool>): (c: seq<bool>)
    requires |a| == |b|
    ensures |c| == |a| && forall i :: 0 <= i < |c| ==> c[i] == (a[i] != b[i])
  {
    seq(|a|, i requires 0 <= i < |a| => a[i] != b[i])
  }

  /** The generator x^16 + x^12 + x^5 + 1 without its leading term: the bits of 0x1021. */
  function Generator(): (g: Reg)
    ensures forall i :: 0 <= i < 16 ==> g[i] == (i == 3 || i == 10 || i == 15)
  {
    seq(16, i => i == 3 || i == 10 || i == 15)
  }

  /** One shift of the register: multiply by x and reduce by the generator. */
  function Step(r: Reg): Reg {
    var shifted := r[1..] + [false];
    if r[0] then Xor(shifted, Generator()) else shifted
  }

  function Steps(r: Reg, n: nat): Reg
    decreases n
  {
    if n == 0 then r else Steps(Step(r), n - 1)
  }

  function StepByte(r: Reg): Reg {
    Steps(r, 8)
  }

  function FeedBit(r: Reg, b: bool): Reg {
    Step(r[0 := r[0] != b])
  }

  /** The register after the message bits, first bit first. */
  function FeedBits(r: Reg, bits: seq<bool>): Reg
    decreases |bits|
  {
    if bits == [] then r else FeedBits(FeedBit(r, bits[0]), bits[1..])
  }

  /** The bits of a byte and of a word, most significant first. */
  function ByteBits(d: bv8): (bits: seq<bool>)
    ensures |bits| == 8
  {
    [d & 0x80 != 0, d & 0x40 != 0, d & 0x20 != 0, d & 0x10 != 0,
     d & 0x08 != 0, d & 0x04 != 0, d & 0x02 != 0, d & 0x01 != 0]
  }

  function Mask(i: int): bv16 {
    if i == 0 then 0x8000 else if i == 1 then 0x4000 else if i == 2 then 0x2000 else if i == 3 then 0x1000
    else if i == 4 then 0x0800 else if i == 5 then 0x0400 else if i == 6 then 0x0200 else if i == 7 then 0x0100
    else if i == 8 then 0x0080 else if i == 9 then 0x0040 else if i == 10 then 0x0020 else if i == 11 then 0x0010
    else if i == 12 then 0x0008 else if i == 13 then 0x0004 else if i == 14 then 0x0002 else 0x0001
  }

  function BitAt(s: bv16, i: int): bool {
    s & Mask(i) != 0
  }

  function Bits(s: bv16): (r: Reg)
    ensures forall i :: 0 <= i < 16 ==> r[i] == BitAt(s, i)
  {
    seq(16, i => BitAt(s, i))
  }

  function MessageBits(data: seq<bv8>): (bits: seq<bool>)
    ensures |bits| == 8 * |data|
  {
    if data == [] then [] else ByteBits(data[0]) + MessageBits(data[1..])
  }

  /** The specification of ccitt_update: the register after every bit of the message. */
  function Crc(r: Reg, data: seq<bv8>): Reg {
    FeedBits(r, MessageBits(data))
  }

  // ---------------------------------------------------------------- the algebra of the register

  lemma StepIsLinear(a: Reg, b: Reg)
    ensures Step(Xor(a, b)) == Xor(Step(a), Step(b))
  {
  }

  lemma {:induction false} StepsAreLinear(a: Reg, b: Reg, n: nat)
    ensures Steps(Xor(a, b), n) == Xor(Steps(a, n), Steps(b, n))
    decreases n
  {
    if n > 0 {
      hide Step;
      StepIsLinear(a, b);
      StepsAreLinear(Step(a), Step(b), n - 1);
    }
  }

  lemma StepIsInjective(a: Reg, b: Reg)
    requires Step(a) == Step(b)
    ensures a == b
  {
    assert Step(a)[15] == a[0] && Step(b)[15] == b[0];
    forall i | 1 <= i < 16 ensures a[i] == b[i] {
      assert Step(a)[i - 1] == (a[i] != (a[0] && Generator()[i - 1]));
      assert Step(b)[i - 1] == (b[i] != (b[0] && Generator()[i - 1]));
    }
  }

  lemma {:induction false} StepsAreInjective(a: Reg, b: Reg, n: nat)
    requires Steps(a, n) == Steps(b, n)
    ensures a == b
    decreases n
  {
    if n > 0 {
      StepsAreInjective(Step(a), Step(b), n - 1);
      StepIsInjective(a, b);
    }
  }

  /** A register whose first n bits are clear only shifts. */
  lemma {:induction false} ClearBitsShift(r: Reg, n: nat)
    requires n <= 16 && r[..n] == Zeros(n)
    ensures Steps(r, n) == r[n..] + Zeros(n)
    decreases n
  {
    if n > 0 {
      assert !r[..n][0];
      assert Step(r) == r[1..] + [false];
      assert Step(r)[..n - 1] == r[..n][1..];
      ClearBitsShift(Step(r), n - 1);
    } else {
      assert r[0..] + Zeros(0) == r;
    }
  }

  lemma {:induction false} FeedConcat(r: Reg, a: seq<bool>, b: seq<bool>)
    ensures FeedBits(r, a + b) == FeedBits(FeedBits(r, a), b)
    decreases |a|
  {
    if a == [] {
      assert a + b == b;
    } else {
      assert (a + b)[1..] == a[1..] + b;
      FeedConcat(FeedBit(r, a[0]), a[1..], b);
    }
  }

  lemma {:induction false} MessageConcat(a: seq<bv8>, b: seq<bv8>)
    ensures MessageBits(a + b) == MessageBits(a) + MessageBits(b)
    decreases |a|
  {
    if a == [] {
      assert a + b == b;
    } else {
      assert (a + b)[1..] == a[1..] + b;
      MessageConcat(a[1..], b);
      assert ByteBits(a[0]) + (MessageBits(a[1..]) + MessageBits(b)) == MessageBits(a) + MessageBits(b);
    }
  }

  /** Feeding up to sixteen bits is xoring them into the top of the register and shifting. */
  lemma {:induction false} FeedWindow(r: Reg, w: seq<bool>)
    requires |w| <= 16
    ensures FeedBits(r, w) == Steps(Xor(r, w + Zeros(16 - |w|)), |w|)
    decreases |w|
  {
    if w == [] {
      assert Xor(r, w + Zeros(16)) == r;
    } else {
      FeedWindow(FeedBit(r, w[0]), w[1..]);
      var x, y := r[0 := r[0] != w[0]], Xor(r, w + Zeros(16 - |w|));
      assert x[0] == y[0];
      forall i | 0 <= i < 16
        ensures Xor(Step(x), w[1..] + Zeros(17 - |w|))[i] == Step(y)[i]
      {
        assert Step(x)[i] == ((i < 15 && x[i + 1]) != (x[0] && Generator()[i]));
        assert Step(y)[i] == ((i < 15 && y[i + 1]) != (y[0] && Generator()[i]));
      }
      assert Xor(Step(x), w[1..] + Zeros(17 - |w|)) == Step(y);
    }
  }

  // ---------------------------------------------------------------- the table-driven form

  lemma ShiftBits(s: bv16)
    ensures Bits(s << 1) == Bits(s)[1..] + [false]
  {
    hide BitAt;
    var t := s << 1;
    forall i | 0 <= i < 16 ensures BitAt(t, i) == (i < 15 && BitAt(s, i + 1)) {
      ShiftBitAt(s, i);
    }
  }

  lemma ShiftBitAt(s: bv16, i: int)
    requires 0 <= i < 16
    ensures BitAt(s << 1, i) == (i < 15 && BitAt(s, i + 1))
  {
  }

  lemma ShiftByte(s: bv16)
    ensures Bits(s << 8) == Bits(s)[8..] + Zeros(8)
  {
    hide BitAt;
    var t := s << 8;
    forall i | 0 <= i < 16 ensures BitAt(t, i) == (i < 8 && BitAt(s, i + 8)) {
      ShiftByteAt(s, i);
    }
  }

  lemma ShiftByteAt(s: bv16, i: int)
    requires 0 <= i < 16
    ensures BitAt(s << 8, i) == (i < 8 && BitAt(s, i + 8))
  {
  }

  lemma XorBits(s: bv16, t: bv16)
    ensures Bits(s ^ t) == Xor(Bits(s), Bits(t))
  {
    hide BitAt;
    forall i | 0 <= i < 16 ensures BitAt(s ^ t, i) == (BitAt(s, i) != BitAt(t, i)) {
      XorBitAt(s, t, i);
    }
  }

  lemma XorBitAt(s: bv16, t: bv16, i: int)
    ensures BitAt(s ^ t, i) == (BitAt(s, i) != BitAt(t, i))
  {
    hide Mask;
    MaskIsOneBit(i);
    XorUnderMask(s, t, Mask(i));
  }

  lemma MaskIsOneBit(i: int)
    ensures Mask(i) & (Mask(i) - 1) == 0
  {
  }

  lemma XorUnderMask(s: bv16, t: bv16, m: bv16)
    requires m & (m - 1) == 0
    ensures ((s ^ t) & m != 0) == ((s & m != 0) != (t & m != 0))
  {
  }

  lemma GeneratorBits()
    ensures Bits(0x1021) == Generator()
  {
  }

  /** One round of the source's loop is one step of the register. */
  lemma WordStep(s: bv16)
    ensures Bits(if s & 0x8000 != 0 then (s << 1) ^ 0x1021 else s << 1) == Step(Bits(s))
  {
    assert (s & 0x8000 != 0) == BitAt(s, 0);
    hide BitAt;
    ShiftBits(s);
    GeneratorBits();
    XorBits(s << 1, 0x1021);
  }

  method TableEntry(index: bv16) returns (value: bv16)
    ensures Bits(value) == StepByte(Bits(index << 8))
  {
    hide Bits, BitAt;
    value := index << 8;
    for bit := 0 to 8
      invariant Steps(Bits(value), 8 - bit) == StepByte(Bits(index << 8))
    {
      WordStep(value);
      value := if value & 0x8000 != 0 then (value << 1) ^ 0x1021 else value << 1;
    }
  }

  ghost predicate IsRow(entry: bv16, index: int)
    requires 0 <= index < 256
  {
    Bits(entry) == StepByte(Bits((index as bv16) << 8))
  }

  ghost predicate IsTable(table: seq<bv16>) {
    |table| == 256 && forall i :: 0 <= i < 256 ==> IsRow(table[i], i)
  }

  method TableRow(i: int) returns (entry: bv16)
    requires 0 <= i < 256
    ensures IsRow(entry, i)
  {
    hide Bits, StepByte;
    entry := TableEntry(i as bv16);
  }

  method MakeTable() returns (table: array<bv16>)
    ensures fresh(table) && IsTable(table[..])
  {
    hide IsRow;
    table := new bv16[256];
    for i := 0 to 256
      invariant forall j :: 0 <= j < i ==> IsRow(table[j], j)
    {
      table[i] := TableRow(i);
    }
  }

  /** Eight bits fed at once: what the table lookup computes. */
  lemma FeedByteByTable(r: Reg, d: seq<bool>)
    requires |d| == 8
    ensures FeedBits(r, d) == Xor(r[8..] + Zeros(8), StepByte(Xor(r[..8], d) + Zeros(8)))
  {
    FeedWindow(r, d);
    var high, low := Xor(r[..8], d) + Zeros(8), Zeros(8) + r[8..];
    assert Xor(r, d + Zeros(8)) == Xor(low, high);
    StepsAreLinear(low, high, 8);
    assert low[..8] == Zeros(8) && low[8..] == r[8..];
    ClearBitsShift(low, 8);
  }

  lemma IndexBits(crc: bv16, d: bv8)
    ensures Bits(Index(crc, d) << 8) == Xor(Bits(crc)[..8], ByteBits(d)) + Zeros(8)
  {
    hide BitAt, ByteBits;
    var t := Index(crc, d) << 8;
    forall i | 0 <= i < 16
      ensures BitAt(t, i) == (i < 8 && BitAt(crc, i) != ByteBits(d)[i])
    {
      IndexBitAt(crc, d, i);
    }
  }

  lemma IndexBitAt(crc: bv16, d: bv8, i: int)
    requires 0 <= i < 16
    ensures BitAt(((crc >> 8) ^ (d as bv16)) << 8, i) == (i < 8 && BitAt(crc, i) != ByteBits(d)[i])
  {
    ShiftByteAt((crc >> 8) ^ (d as bv16), i);
    if i < 8 {
      XorBitAt(crc >> 8, d as bv16, i + 8);
      HighByteAt(crc, i);
      ByteAt(d, i);
    }
  }

  lemma HighByteAt(s: bv16, i: int)
    requires 0 <= i < 8
    ensures BitAt(s >> 8, i + 8) == BitAt(s, i)
  {
  }

  lemma ByteAt(d: bv8, i: int)
    requires 0 <= i < 8
    ensures BitAt(d as bv16, i + 8) == ByteBits(d)[i]
  {
  }

  /** The lookup index: the narrowing to uint8_t loses nothing. */
  function Index(crc: bv16, d: bv8): (i: bv16)
    ensures i < 256
  {
    (crc >> 8) ^ (d as bv16)
  }

  lemma IndexAsInt(i: bv16)
    requires i < 256
    ensures 0 <= i as int < 256 && (i as int) as bv16 == i
  {
  }

  lemma RowMeaning(entry: bv16, index: int)
    requires 0 <= index < 256 && IsRow(entry, index)
    ensures Bits(entry) == StepByte(Bits((index as bv16) << 8))
  {
    hide Bits, StepByte;
  }

  lemma TableStep(crc: bv16, d: bv8, index: int, entry: bv16)
    requires 0 <= index < 256 && index as bv16 == Index(crc, d)
    requires IsRow(entry, index)
    ensures Bits((crc << 8) ^ entry) == FeedBits(Bits(crc), ByteBits(d))
  {
    hide *;
    RowMeaning(entry, index);
    IndexBits(crc, d);
    var shifted := crc << 8;
    ShiftByte(crc);
    XorBits(shifted, entry);
    FeedByteByTable(Bits(crc), ByteBits(d));
  }

  lemma CrcEmpty(r: Reg)
    ensures Crc(r, []) == r
  {
  }

  lemma CrcSnoc(r: Reg, data: seq<bv8>, d: bv8)
    ensures Crc(r, data + [d]) == FeedBits(Crc(r, data), ByteBits(d))
  {
    MessageConcat(data, [d]);
    assert [d][1..] == [];
    assert MessageBits([d]) == ByteBits(d);
    FeedConcat(r, MessageBits(data), ByteBits(d));
  }

  method CcittUpdate(table: array<bv16>, crc: bv16, data: array<bv8>, size: nat) returns (r: bv16)
    requires IsTable(table[..]) && size <= data.Length
    ensures Bits(r) == Crc(Bits(crc), data[..size])
  {
    hide Bits, BitAt, ByteBits, Index, StepByte, IsRow, Crc;
    r := crc;
    assert data[..0] == [];
    CrcEmpty(Bits(crc));
    for i := 0 to size
      invariant Bits(r) == Crc(Bits(crc), data[..i])
    {
      var index := Index(r, data[i]) as int;
      IndexAsInt(Index(r, data[i]));
      TableStep(r, data[i], index, table[index]);
      assert data[..i + 1] == data[..i] + [data[i]];
      CrcSnoc(Bits(crc), data[..i], data[i]);
      r := (r << 8) ^ table[index];
    }
  }

  method Ccitt(table: array<bv16>, data: array<bv8>, size: nat) returns (r: bv16)
    requires IsTable(table[..]) && size <= data.Length
    ensures Bits(r) == Crc(Zeros(16), data[..size])
  {
    ZeroBits();
    r := CcittUpdate(table, 0, data, size);
  }

  lemma ZeroBits()
    ensures Bits(0) == Zeros(16)
  {
  }

  // ---------------------------------------------------------------- long division

  /** Schoolbook division over GF(2): while the dividend is longer than sixteen bits, drop its
      leading bit, subtracting the generator when that bit is one. */
  function Remainder(dividend: seq<bool>): Reg
    requires |dividend| >= 16
    decreases |dividend|
  {
    if |dividend| == 16 then dividend
    else if dividend[0] then
      Remainder(Xor(dividend[1..17], Generator()) + dividend[17..])
    else
      Remainder(dividend[1..])
  }

  /** The register is the remainder of (start * x^n + message) * x^16. */
  lemma {:induction false} CrcIsRemainder(r: Reg, bits: seq<bool>)
    ensures FeedBits(r, bits) == Remainder(Xor(r + Zeros(|bits|), bits + Zeros(16)))
    decreases |bits|
  {
    var dividend := Xor(r + Zeros(|bits|), bits + Zeros(16));
    if bits == [] {
      assert dividend == r;
    } else {
      var r', rest := FeedBit(r, bits[0]), bits[1..];
      CrcIsRemainder(r', rest);
      var next := if dividend[0] then Xor(dividend[1..17], Generator()) + dividend[17..] else dividend[1..];
      forall i | 0 <= i < |next|
        ensures next[i] == Xor(r' + Zeros(|rest|), rest + Zeros(16))[i]
      {
        if i < 16 {
          assert next[i] == (dividend[i + 1] != (dividend[0] && Generator()[i]));
          assert r'[i] == ((i < 15 && r[i + 1]) != (dividend[0] && Generator()[i]));
        } else {
          assert next[i] == dividend[i + 1];
        }
      }
      assert next == Xor(r' + Zeros(|rest|), rest + Zeros(16));
    }
  }

  /** ccitt: the remainder of the message times x^16. */
  lemma CrcOfMessageIsRemainder(data: seq<bv8>)
    ensures Crc(Zeros(16), data) == Remainder(MessageBits(data) + Zeros(16))
  {
    var bits := MessageBits(data);
    CrcIsRemainder(Zeros(16), bits);
    assert Xor(Zeros(16) + Zeros(|bits|), bits + Zeros(16)) == bits + Zeros(16);
  }

  // ---------------------------------------------------------------- error detection

  /** The register update is injective in the register, whatever the message. */
  lemma {:induction false} FeedIsInjective(a: Reg, b: Reg, bits: seq<bool>)
    requires FeedBits(a, bits) == FeedBits(b, bits)
    ensures a == b
    decreases |bits|
  {
    if bits != [] {
      FeedIsInjective(FeedBit(a, bits[0]), FeedBit(b, bits[0]), bits[1..]);
      StepIsInjective(a[0 := a[0] != bits[0]], b[0 := b[0] != bits[0]]);
      forall i | 0 <= i < 16 ensures a[i] == b[i] {
        assert a[0 := a[0] != bits[0]][i] == b[0 := b[0] != bits[0]][i];
      }
    }
  }

  /** Two different windows of the same length, at most sixteen bits, separate equal registers. */
  lemma WindowIsInjective(r: Reg, v: seq<bool>, w: seq<bool>)
    requires |v| == |w| <= 16
    requires FeedBits(r, v) == FeedBits(r, w)
    ensures v == w
  {
    FeedWindow(r, v);
    FeedWindow(r, w);
    var x, y := Xor(r, v + Zeros(16 - |v|)), Xor(r, w + Zeros(16 - |w|));
    StepsAreInjective(x, y, |v|);
    forall i | 0 <= i < |v| ensures v[i] == w[i] {
      assert x[i] == y[i];
    }
  }

  /** Every burst of at most sixteen bits is detected: messages that agree outside one window of
      sixteen consecutive bits, anywhere in the message, never share a CRC. */
  lemma BurstDetected(r: Reg, before: seq<bool>, v: seq<bool>, w: seq<bool>, after: seq<bool>)
    requires |v| == |w| <= 16
    ensures FeedBits(r, before + v + after) == FeedBits(r, before + w + after) <==> v == w
  {
    FeedConcat(r, before + v, after);
    FeedConcat(r, before, v);
    FeedConcat(r, before + w, after);
    FeedConcat(r, before, w);
    var r' := FeedBits(r, before);
    if FeedBits(FeedBits(r', v), after) == FeedBits(FeedBits(r', w), after) {
      FeedIsInjective(FeedBits(r', v), FeedBits(r', w), after);
      WindowIsInjective(r', v, w);
    }
  }

  lemma ByteBitsInjective(d: bv8, e: bv8)
    requires ByteBits(d) == ByteBits(e)
    ensures d == e
  {
    assert forall i :: 0 <= i < 8 ==> ByteBits(d)[i] == ByteBits(e)[i];
  }

  lemma MessageOfTwo(x: bv8, y: bv8)
    ensures MessageBits([x, y]) == ByteBits(x) + ByteBits(y)
  {
    hide ByteBits;
    assert [x, y][1..] == [y] && [y][1..] == [];
    assert MessageBits([y]) == ByteBits(y);
  }

  /** Two messages that differ inside two adjacent bytes only, at any place, never share a CRC. */
  lemma AdjacentBytesDetected(r: Reg, before: seq<bv8>, x: bv8, y: bv8, x': bv8, y': bv8, after: seq<bv8>)
    ensures Crc(r, before + [x, y] + after) == Crc(r, before + [x', y'] + after) <==> x == x' && y == y'
  {
    hide ByteBits;
    MessageConcat(before + [x, y], after);
    MessageConcat(before, [x, y]);
    MessageConcat(before + [x', y'], after);
    MessageConcat(before, [x', y']);
    MessageOfTwo(x, y);
    MessageOfTwo(x', y');
    var v, w := ByteBits(x) + ByteBits(y), ByteBits(x') + ByteBits(y');
    BurstDetected(r, MessageBits(before), v, w, MessageBits(after));
    if v == w {
      assert v[..8] == ByteBits(x) && w[..8] == ByteBits(x');
      assert v[8..] == ByteBits(y) && w[8..] == ByteBits(y');
      ByteBitsInjective(x, x');
      ByteBitsInjective(y, y');
    }
  }

  /** The two bytes a sender appends, high byte first, are the only two that bring the register
      to zero at the receiver. */
  lemma ZeroResidue(r: Reg, data: seq<bv8>, high: bv8, low: bv8)
    ensures Crc(r, data + [high, low]) == Zeros(16) <==> Crc(r, data) == ByteBits(high) + ByteBits(low)
  {
    hide ByteBits;
    var s, w := Crc(r, data), ByteBits(high) + ByteBits(low);
    MessageConcat(data, [high, low]);
    MessageOfTwo(high, low);
    FeedConcat(r, MessageBits(data), w);
    FeedWindow(s, w);
    assert w + Zeros(0) == w;
    ClearBitsShift(Zeros(16), 16);
    assert Zeros(16)[16..] + Zeros(16) == Zeros(16);
    if Steps(Xor(s, w), 16) == Zeros(16) {
      StepsAreInjective(Xor(s, w), Zeros(16), 16);
      forall i | 0 <= i < 16 ensures s[i] == w[i] {
        assert !Xor(s, w)[i];
      }
    }
    if s == w {
      assert Xor(s, w) == Zeros(16);
    }
  }

  /** The high and low bytes of a CRC word, as ZeroResidue wants them. */
  lemma WordIsItsBytes(c: bv16, high: bv8, low: bv8)
    requires high as bv16 == c >> 8 && low as bv16 == c & 0xFF
    ensures ByteBits(high) + ByteBits(low) == Bits(c)
  {
    hide BitAt, ByteBits;
    var h, l := ByteBits(high), ByteBits(low);
    forall i | 0 <= i < 8 ensures h[i] == BitAt(c, i) && l[i] == BitAt(c, i + 8) {
      ByteAt(high, i);
      HighByteAt(c, i);
      ByteAt(low, i);
      LowByteAt(c, i);
    }
  }

  lemma LowByteAt(s: bv16, i: int)
    requires 0 <= i < 8
    ensures BitAt(s & 0xFF, i + 8) == BitAt(s, i + 8)
  {
  }

  /** Whether the number of one bits is odd. */
  function Odd(bits: seq<bool>): bool {
    bits != [] && bits[0] != Odd(bits[1..])
  }

  lemma {:induction false} OddOfXor(a: seq<bool>, b: seq<bool>)
    requires |a| == |b|
    ensures Odd(Xor(a, b)) == (Odd(a) != Odd(b))
  {
    if a != [] {
      assert Xor(a, b)[1..] == Xor(a[1..], b[1..]);
      OddOfXor(a[1..], b[1..]);
    }
  }

  lemma {:induction false} OddOfConcat(a: seq<bool>, b: seq<bool>)
    ensures Odd(a + b) == (Odd(a) != Odd(b))
  {
    if a == [] {
      assert a + b == b;
    } else {
      assert (a + b)[1..] == a[1..] + b;
      OddOfConcat(a[1..], b);
    }
  }

  lemma GeneratorIsOdd()
    ensures Odd(Generator())
  {
    var g := Generator();
    assert g[14..] == [false, true];
    assert g[10..] == [true] + [false, false, false] + g[14..];
    assert g == [false, false, false, true] + [false, false, false, false, false, false] + g[10..];
    OddOfConcat([false, false, false, true] + [false, false, false, false, false, false], g[10..]);
    OddOfConcat([false, false, false, true], [false, false, false, false, false, false]);
    OddOfConcat([true] + [false, false, false], g[14..]);
    OddOfConcat([true], [false, false, false]);
  }

  lemma StepKeepsParity(r: Reg)
    ensures Odd(Step(r)) == Odd(r)
  {
    GeneratorIsOdd();
    OddOfConcat(r[1..], [false]);
    OddOfXor(r[1..] + [false], Generator());
  }

  /** The parity of the register is the parity of all bits fed so far. */
  lemma {:induction false} FeedTracksParity(r: Reg, bits: seq<bool>)
    ensures Odd(FeedBits(r, bits)) == (Odd(r) != Odd(bits))
    decreases |bits|
  {
    if bits != [] {
      var r' := r[0 := r[0] != bits[0]];
      assert r'[1..] == r[1..];
      StepKeepsParity(r');
      FeedTracksParity(FeedBit(r, bits[0]), bits[1..]);
    }
  }

  /** Any odd number of flipped bits, anywhere in the message, is detected. */
  lemma OddErrorsDetected(r: Reg, sent: seq<bool>, received: seq<bool>)
    requires |sent| == |received| && Odd(Xor(sent, received))
    ensures FeedBits(r, sent) != FeedBits(r, received)
  {
    OddOfXor(sent, received);
    FeedTracksParity(r, sent);
    FeedTracksParity(r, received);
  }
}
