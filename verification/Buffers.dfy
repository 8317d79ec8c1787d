/** The text buffer of mri/core/buffer.c: three cursors over a shared character array, a sticky
    overrun encoded as pCurrent == pEnd + 1, and hexadecimal readers and writers. */
module Buffers {
  import opened Common
  import opened Hex

  /** What a response under construction holds: all the text written, or an overrun. */
  datatype Response = Text(text: seq<byte>) | Overrun

  /** The effect of one more write of s on a response limited to capacity bytes. */
  function Put(v: Response, capacity: nat, s: seq<byte>): Response {
    match v
    case Overrun => Overrun
    case Text(t) => if |t| + |s| <= capacity then Text(t + s) else Overrun
  }

  lemma PutNothing(v: Response, capacity: nat)
    requires v.Text? ==> |v.text| <= capacity
    ensures Put(v, capacity, []) == v
  {
    if v.Text? {
      assert v.text + [] == v.text;
    }
  }

  lemma ZeroTruncated(w: nat)
    ensures forall s: seq<byte> :: s[..0] == []
    ensures Truncate(HexValue([]), w) == 0
  {
    TruncateSmall(0, w);
  }

  /** Writing in two pieces is writing the whole: an overrun half way is an overrun. */
  lemma PutConcat(v: Response, capacity: nat, a: seq<byte>, b: seq<byte>)
    ensures Put(Put(v, capacity, a), capacity, b) == Put(v, capacity, a + b)
  {
    if v.Text? {
      assert v.text + a + b == v.text + (a + b);
    }
  }

  /** m with s stored from index at on. */
  function Patch(m: seq<byte>, at: nat, s: seq<byte>): (p: seq<byte>)
    requires at + |s| <= |m|
    ensures |p| == |m|
  {
    m[..at] + s + m[at + |s|..]
  }

  lemma PatchText(m: seq<byte>, start: nat, at: nat, s: seq<byte>)
    requires start <= at && at + |s| <= |m|
    ensures Patch(m, at, s)[start..at + |s|] == m[start..at] + s
  {
  }

  lemma PatchOutside(m: seq<byte>, start: nat, at: nat, s: seq<byte>, end: nat)
    requires start <= at && at + |s| <= end <= |m|
    ensures Patch(m, at, s)[..start] == m[..start] && Patch(m, at, s)[end..] == m[end..]
  {
  }

  lemma PatchPair(m: seq<byte>, at: nat, b: byte)
    requires at + 2 <= |m|
    ensures Patch(m, at, ByteAsHex(b)) == m[at := ByteAsHex(b)[0]][at + 1 := ByteAsHex(b)[1]]
  {
    var s := ByteAsHex(b);
    hide ByteAsHex;
    assert s == [s[0], s[1]];
  }

  lemma PatchEmpty(m: seq<byte>, at: nat)
    requires at <= |m|
    ensures Patch(m, at, []) == m
  {
  }

  lemma PatchSnoc(m: seq<byte>, at: nat, s: seq<byte>, c: byte)
    requires at + |s| < |m|
    ensures Patch(m, at, s + [c]) == Patch(m, at, s)[at + |s| := c]
  {
  }

  lemma ZeroAsHex()
    ensures UIntegerAsHex(0) == ByteAsHex(0)
  {
    assert BytesAsHex(0, 1) == BytesAsHex(0, 0) + ByteAsHex(0);
  }

  lemma BytesAsHexStart(value: nat, n: nat)
    ensures ShiftRightBytes(value, 0) == value && BytesAsHex(ShiftRightBytes(value, n), 0) == []
  {
  }

  /** Once a prefix of the digits has overrun, so has the whole number. */
  lemma {:induction false} OverrunIsFinal(v: Response, capacity: nat, value: nat, index: nat, n: nat)
    requires index < n
    requires Put(v, capacity, BytesAsHex(ShiftRightBytes(value, index), n - index)) == Overrun
    ensures Put(v, capacity, BytesAsHex(value, n)) == Overrun
  {
    BytesAsHexStart(value, n);
  }

  // ---------------------------------------------------------------- signed words

  /** A value converted to the 32-bit int of the target, as a C cast does. */
  function ToInt32(x: int): (r: int)
    ensures -0x8000_0000 <= r < 0x8000_0000 && (r - x) % 0x1_0000_0000 == 0
  {
    var y := x % 0x1_0000_0000;
    if y < 0x8000_0000 then y else y - 0x1_0000_0000
  }

  /** The text Buffer_WriteIntegerAsHex produces. */
  function IntegerAsHex(value: int): (s: seq<byte>) {
    if value < 0 then ['-' as int] + UIntegerAsHex(-value) else UIntegerAsHex(value)
  }

  /** The largest signed word. */
  function IntMax(w: nat): int {
    Modulus(w) / 2 - 1
  }

  /** convertToIntegerAndThrowIfOutOfRange: the cast goes through int, whatever the word size. */
  function ToSigned(isNegative: bool, value: nat, w: nat): (r: (int, Exception)) {
    var intMax := IntMax(w);
    if !isNegative && value > intMax then (intMax, InvalidValue)
    else if isNegative && value > intMax + 1 then (-intMax - 1, InvalidValue)
    else if isNegative then (ToInt32(-ToInt32(value)), NoException)
    else (ToInt32(value), NoException)
  }

  /** What Buffer_ReadUIntegerAsHex returns for a text: value, exception and characters consumed. */
  function ReadUInteger(s: seq<byte>, w: nat): (r: (nat, Exception, nat))
    ensures r.2 <= |s|
  {
    var k := HexPrefix(s);
    (Truncate(HexValue(s[..k]), w), if k == 0 then InvalidValue else NoException, k)
  }

  /** Any text of hex digits, of either case and any length, is read whole and its value kept modulo
      the word; none at all is an error. */
  lemma ReadUIntegerOf(digits: seq<byte>, w: nat, after: seq<byte>)
    requires forall i :: 0 <= i < |digits| ==> IsHexDigit(digits[i])
    requires after == [] || !IsHexDigit(after[0])
    ensures ReadUInteger(digits + after, w)
         == (Truncate(HexValue(digits), w), if digits == [] then InvalidValue else NoException, |digits|)
  {
    hide HexValue, HexPrefix, Truncate, IsHexDigit;
    PrefixOfDigits(digits, after);
    assert (digits + after)[..|digits|] == digits;
  }

  /** Every word printed is read back, whatever follows the digits. */
  lemma UnsignedRoundTrip(value: nat, w: nat, after: seq<byte>)
    requires value < Modulus(w)
    requires after == [] || !IsHexDigit(after[0])
    ensures ReadUInteger(UIntegerAsHex(value) + after, w) == (value, NoException, |UIntegerAsHex(value)|)
  {
    hide UIntegerAsHex, Modulus, HexValue, HexPrefix, Truncate, IsHexDigit, ReadUInteger;
    UIntegerHexRoundTrip(value, after);
    ReadUIntegerOf(UIntegerAsHex(value), w, after);
    TruncateSmall(value, w);
  }

  /** What Buffer_ReadIntegerAsHex returns for a text: value, exception and characters consumed. */
  function ReadInteger(s: seq<byte>, w: nat): (r: (int, Exception, nat))
    ensures r.2 <= |s|
  {
    if s == [] then (0, BufferOverrun, 0)
    else
      var sign := if s[0] == '-' as int then 1 else 0;
      var (magnitude, exc, k) := ReadUInteger(s[sign..], w);
      if exc != NoException then (0, exc, sign)
      else
        var (value, range) := ToSigned(sign == 1, magnitude, w);
        (value, range, sign + k)
  }

  lemma {:induction false} IntMaxIsHalf(w: nat)
    requires w >= 1
    ensures Modulus(w) == 2 * IntMax(w) + 2
    ensures w <= 4 ==> IntMax(w) < 0x8000_0000
  {
    if w >= 2 { IntMaxIsHalf(w - 1); }
  }

  lemma SignedCast(value: int, w: nat)
    requires -IntMax(w) - 1 <= value <= IntMax(w)
    ensures ToSigned(value < 0, if value < 0 then -value else value, w).1 == NoException
    ensures ToSigned(value < 0, if value < 0 then -value else value, w).0 == value
            <==> -0x8000_0000 <= value < 0x8000_0000
  {
    hide IntMax;
  }

  /** A magnitude is out of range exactly above half the word: at half for a positive number, above
      it for a negative one. */
  lemma SignedRange(isNegative: bool, magnitude: nat, w: nat)
    requires w >= 1
    ensures ToSigned(isNegative, magnitude, w).1 == InvalidValue
       <==> if isNegative then 2 * magnitude > Modulus(w) else 2 * magnitude >= Modulus(w)
    ensures ToSigned(isNegative, magnitude, w).1 == InvalidValue ==>
              var m: int := Modulus(w);
              2 * ToSigned(isNegative, magnitude, w).0 == if isNegative then -m else m - 2
  {
    IntMaxIsHalf(w);
    hide Modulus, IntMax;
  }

  lemma SignedTextParses(value: int, w: nat, after: seq<byte>)
    requires after == [] || !IsHexDigit(after[0])
    requires (if value < 0 then -value else value) < Modulus(w)
    ensures var s := IntegerAsHex(value);
            var signed := ToSigned(value < 0, if value < 0 then -value else value, w);
            ReadInteger(s + after, w) == (signed.0, signed.1, |s|)
  {
    hide ToSigned, HexCharToNibble, IsHexDigit, UIntegerAsHex, ReadUInteger;
    var magnitude := if value < 0 then -value else value;
    var digits, s := UIntegerAsHex(magnitude), IntegerAsHex(value) + after;
    UnsignedRoundTrip(magnitude, w, after);
    UIntegerHexRoundTrip(magnitude, after);
    NoMinusDigit();
    var sign := if value < 0 then 1 else 0;
    assert s[sign..] == digits + after;
    assert value >= 0 ==> s[0] == digits[0];
  }

  lemma NoMinusDigit()
    ensures !IsHexDigit('-' as int)
  {
  }

  /** The signed round trip holds exactly for the values an int can hold: with words of up to
      four bytes always, with eight-byte words not beyond 32 bits. */
  lemma SignedRoundTrip(value: int, w: nat, after: seq<byte>)
    requires w >= 1 && -IntMax(w) - 1 <= value <= IntMax(w)
    requires after == [] || !IsHexDigit(after[0])
    ensures ReadInteger(IntegerAsHex(value) + after, w).1 == NoException
    ensures ReadInteger(IntegerAsHex(value) + after, w).2 == |IntegerAsHex(value)|
    ensures ReadInteger(IntegerAsHex(value) + after, w).0 == value <==> -0x8000_0000 <= value < 0x8000_0000
    ensures w <= 4 ==> ReadInteger(IntegerAsHex(value) + after, w).0 == value
  {
    hide ToSigned, ReadInteger, IntegerAsHex, IntMax, Truncate, Modulus;
    IntMaxIsHalf(w);
    SignedTextParses(value, w, after);
    SignedCast(value, w);
  }

  lemma ReadUIntegerConsumes(s: seq<byte>, w: nat)
    ensures ReadUInteger(s, w).2 == HexPrefix(s)
    ensures ReadUInteger(s, w).1 != NoException <==> HexPrefix(s) == 0
  {
  }

  lemma SignOverrun(v: Response, capacity: nat, sign: seq<byte>, digits: seq<byte>)
    requires Put(v, capacity, sign) == Overrun
    ensures Put(v, capacity, sign + digits) == Overrun
  {
  }

  /** Whether a text starts with a keyword that ends the text or a ':', ';' or ',' ends it. */
  predicate StartsWithWord(text: seq<byte>, word: seq<byte>) {
    |word| <= |text| && text[..|word|] == word &&
    (|text| == |word| || text[|word|] in {':' as int, ';' as int, ',' as int})
  }

  // ---------------------------------------------------------------- the buffer

  class Buffer {
    var mem: array<byte>
    var start: nat
    var end: nat
    var cur: nat

    ghost predicate Valid()
      reads this
    {
      start <= end <= mem.Length && start <= cur <= end + 1
    }

    /** Where the next characters would be read from or written to. */
    ghost function Rest(): seq<byte>
      reads this, mem
      requires Valid()
    {
      if cur > end then [] else mem[cur..end]
    }

    /** Everything written since the last reset, or the overrun. */
    ghost function View(): Response
      reads this, mem
      requires Valid()
    {
      if cur > end then Overrun else Text(mem[start..cur])
    }

    ghost function Capacity(): nat
      reads this
      requires Valid()
    {
      end - start
    }

    constructor (mem: array<byte>, start: nat, size: nat)
      requires start + size <= mem.Length
      ensures Valid() && this.mem == mem && this.start == start && end == start + size && cur == start
    {
      this.mem := mem;
      this.start := start;
      end := start + size;
      cur := start;
    }

    method Init(mem: array<byte>, start: nat, size: nat)
      requires start + size <= mem.Length
      modifies this
      ensures Valid() && this.mem == mem && this.start == start && end == start + size && cur == start
    {
      this.mem := mem;
      this.start := start;
      end := start + size;
      Reset();
    }

    method Reset()
      modifies this`cur
      ensures cur == start
    {
      cur := start;
    }

    method SetEndOfBuffer()
      modifies this`end
      ensures end == if cur < old(end) then cur else old(end)
    {
      if cur < end {
        end := cur;
      }
    }

    method Advance(amount: nat)
      requires Valid()
      modifies this`cur
      ensures Valid() && cur == old(cur) + (if amount > old(BytesLeft()) then old(BytesLeft()) else amount)
    {
      var n := amount;
      if amount > BytesLeft() {
        n := BytesLeft();
      }
      cur := cur + n;
    }

    function BytesLeft(): (n: nat)
      reads this
      requires Valid()
    {
      if cur > end then 0 else end - cur
    }

    predicate OverrunDetected()
      reads this
    {
      cur > end
    }

    /** throwExceptionAndFlagBufferOverrunIfBufferLeftIsSmallerThan */
    method Require(size: nat) returns (exc: Exception)
      requires Valid()
      modifies this`cur
      ensures Valid()
      ensures exc == if size <= old(BytesLeft()) then NoException else BufferOverrun
      ensures cur == if size <= old(BytesLeft()) then old(cur) else end + 1
    {
      if BytesLeft() < size {
        cur := end + 1;
        return BufferOverrun;
      }
      return NoException;
    }

    /** The two things a write of s may do: store all of s, or flag the overrun and store nothing. */
    twostate predicate Wrote(s: seq<byte>)
      requires old(Valid())
      reads this, mem
    {
      mem == old(mem) && start == old(start) && end == old(end) && end <= mem.Length &&
      if s == [] then
        cur == old(cur) && mem[..] == old(mem[..])
      else if |s| <= old(BytesLeft()) then
        cur == old(cur) + |s| && mem[..] == Patch(old(mem[..]), old(cur), s)
      else
        cur == end + 1 && mem[..] == old(mem[..])
    }

    twostate lemma WroteView(s: seq<byte>)
      requires old(Valid()) && Wrote(s)
      ensures View() == Put(old(View()), Capacity(), s)
      ensures mem[..start] == old(mem[..start]) && mem[end..] == old(mem[end..])
    {
      hide Patch;
      assert mem[..start] == mem[..][..start] && mem[end..] == mem[..][end..];
      assert old(mem[..start]) == old(mem[..])[..start] && old(mem[end..]) == old(mem[..])[end..];
      if s != [] && |s| <= old(BytesLeft()) {
        PatchOutside(old(mem[..]), start, old(cur), s, end);
      }
      if s != [] && |s| <= old(BytesLeft()) {
        PatchText(old(mem[..]), start, old(cur), s);
        assert View() == Text(mem[..][start..cur]);
        assert old(View()) == Text(old(mem[..])[start..old(cur)]);
      } else if s == [] && cur <= end {
        assert View() == Text(mem[..][start..cur]);
        assert old(View()) == Text(old(mem[..])[start..old(cur)]);
        assert old(View()).text + [] == old(View()).text;
      }
    }

    method WriteChar(c: byte) returns (exc: Exception)
      requires Valid()
      modifies this`cur, mem
      ensures Valid() && mem == old(mem) && start == old(start) && end == old(end)
      ensures Wrote([c]) && View() == Put(old(View()), Capacity(), [c])
      ensures exc.NoException? <==> 1 <= old(BytesLeft())
      ensures mem[..start] == old(mem[..start]) && mem[end..] == old(mem[end..])
    {
      exc := Require(1);
      if exc == NoException {
        hide Patch;
        PatchEmpty(mem[..], cur);
        PatchSnoc(mem[..], cur, [], c);
        assert [] + [c] == [c];
        mem[cur] := c;
        assert mem[..] == old(mem[..])[old(cur) := c];
        cur := cur + 1;
      }
      WroteView([c]);
    }

    method ReadChar() returns (c: byte, exc: Exception)
      requires Valid()
      modifies this`cur
      ensures Valid()
      ensures 1 <= old(BytesLeft()) ==> exc == NoException && c == old(Rest())[0] && cur == old(cur) + 1
      ensures 1 > old(BytesLeft()) ==> exc == BufferOverrun && c == 0 && cur == end + 1
    {
      exc := Require(1);
      if exc == NoException {
        c := mem[cur];
        cur := cur + 1;
      } else {
        c := 0;
      }
    }

    method WriteByteAsHex(b: byte) returns (exc: Exception)
      requires Valid()
      modifies this`cur, mem
      ensures Valid() && mem == old(mem) && start == old(start) && end == old(end)
      ensures Wrote(ByteAsHex(b)) && View() == Put(old(View()), Capacity(), ByteAsHex(b))
      ensures exc.NoException? <==> 2 <= old(BytesLeft())
      ensures mem[..start] == old(mem[..start]) && mem[end..] == old(mem[end..])
    {
      exc := Require(2);
      if exc == NoException {
        hide NibbleToHexChar, Patch, Put;
        var hi, lo := NibbleToHexChar(b / 16), NibbleToHexChar(b % 16);
        PatchPair(mem[..], cur, b);
        mem[cur] := hi;
        cur := cur + 1;
        mem[cur] := lo;
        cur := cur + 1;
        assert mem[..] == old(mem[..])[old(cur) := hi][old(cur) + 1 := lo];
      }
      WroteView(ByteAsHex(b));
    }

    method ReadByteAsHex() returns (b: byte, exc: Exception)
      requires Valid()
      modifies this`cur
      ensures Valid()
      ensures 2 > old(BytesLeft()) ==> exc == BufferOverrun && b == 0 && cur == end + 1
      ensures 2 <= old(BytesLeft()) ==>
                var hi, lo := old(Rest())[0], old(Rest())[1];
                if IsHexDigit(hi) && IsHexDigit(lo)
                then exc == NoException && b == HexAsByte(hi, lo) && cur == old(cur) + 2
                else exc == InvalidHexDigit && b == 0 && cur == old(cur)
    {
      exc := Require(2);
      if exc != NoException {
        return 0, exc;
      }
      var hi := HexCharToNibble(mem[cur]);
      if hi < 0 {
        return 0, InvalidHexDigit;
      }
      var lo := HexCharToNibble(mem[cur + 1]);
      if lo < 0 {
        return 0, InvalidHexDigit;
      }
      cur := cur + 2;
      return hi * 16 + lo, NoException;
    }

    method WriteSizedString(s: seq<byte>) returns (exc: Exception)
      requires Valid()
      modifies this`cur, mem
      ensures Valid() && mem == old(mem) && start == old(start) && end == old(end)
      ensures Wrote(s) && View() == Put(old(View()), Capacity(), s)
      ensures exc.NoException? <==> |s| <= old(BytesLeft())
      ensures mem[..start] == old(mem[..start]) && mem[end..] == old(mem[end..])
    {
      exc := Require(|s|);
      if exc == NoException {
        hide Patch;
        if s != [] {
          PatchEmpty(mem[..], cur);
        }
        var i := 0;
        while i < |s|
          invariant 0 <= i <= |s| <= old(BytesLeft())
          invariant cur == old(cur) + i
          invariant s != [] ==> mem[..] == Patch(old(mem[..]), old(cur), s[..i])
          invariant s == [] ==> mem[..] == old(mem[..])
        {
          PatchSnoc(old(mem[..]), old(cur), s[..i], s[i]);
          assert s[..i + 1] == s[..i] + [s[i]];
          mem[cur] := s[i];
          cur := cur + 1;
          i := i + 1;
        }
        assert s[..|s|] == s;
      }
      WroteView(s);
    }

    /** Writes as many leading characters as fit, silently dropping the rest. */
    method WriteSizedStringAsHex(s: seq<byte>) returns (charsWritten: nat)
      requires Valid()
      modifies this`cur, mem
      ensures charsWritten == if |s| <= old(BytesLeft()) / 2 then |s| else old(BytesLeft()) / 2
      ensures Valid() && mem == old(mem) && start == old(start) && end == old(end)
      ensures View() == Put(old(View()), Capacity(), TextAsHex(s[..charsWritten]))
      ensures OverrunDetected() == old(OverrunDetected())
    {
      var charLimit := BytesLeft() / 2;
      charsWritten := |s|;
      if charsWritten > charLimit {
        charsWritten := charLimit;
      }
      var i := 0;
      PutNothing(View(), Capacity());
      while i < charsWritten
        invariant 0 <= i <= charsWritten <= |s| && Valid() && mem == old(mem)
        invariant start == old(start) && end == old(end)
        invariant cur == old(cur) + 2 * i
        invariant View() == Put(old(View()), Capacity(), TextAsHex(s[..i]))
      {
        PutConcat(old(View()), Capacity(), TextAsHex(s[..i]), ByteAsHex(s[i]));
        assert s[..i + 1][..i] == s[..i];
        var _ := WriteByteAsHex(s[i]);
        i := i + 1;
      }
    }

    method WriteUIntegerAsHex(value: nat, w: nat) returns (exc: Exception)
      requires Valid() && w >= 1 && value < Modulus(w)
      modifies this`cur, mem
      ensures Valid() && mem == old(mem) && start == old(start) && end == old(end)
      ensures View() == Put(old(View()), Capacity(), UIntegerAsHex(value))
      ensures exc.NoException? <==> |UIntegerAsHex(value)| <= old(BytesLeft())
      ensures mem[..start] == old(mem[..start]) && mem[end..] == old(mem[end..])
    {
      hide Patch, Put, BytesAsHex, ShiftRightBytes, ByteAsHex;
      if value == 0 {
        ZeroAsHex();
        exc := WriteByteAsHex(0);
        return;
      }
      var leadingZeroBytes := CountLeadingZeroBytes(value, w);
      var index := w - leadingZeroBytes - 1;
      ghost var n, before, capacity := index + 1, View(), Capacity();
      exc := NoException;
      BytesAsHexStart(value, n);
      PutNothing(before, capacity);
      while index >= 0
        invariant -1 <= index < n
        invariant Valid() && mem == old(mem) && start == old(start) && end == old(end)
        invariant exc == NoException && cur == old(cur) + 2 * (n - 1 - index)
        invariant 2 * (n - 1 - index) <= old(BytesLeft())
        invariant View() == Put(before, capacity, BytesAsHex(ShiftRightBytes(value, index + 1), n - 1 - index))
        invariant mem[..start] == old(mem[..start]) && mem[end..] == old(mem[end..])
      {
        ghost var done := BytesAsHex(ShiftRightBytes(value, index + 1), n - 1 - index);
        NextByteAsHex(value, index, n - 1 - index);
        var next := ShiftRightBytes(value, index) % 256;
        PutConcat(before, capacity, done, ByteAsHex(next));
        exc := WriteByteAsHex(next);
        if exc != NoException {
          OverrunIsFinal(before, capacity, value, index, n);
          return;
        }
        index := index - 1;
      }
      BytesAsHexStart(value, n);
    }

    /** Bytes above the highest non-zero one; the mask of the source walks down from the top byte. */
    static method CountLeadingZeroBytes(value: nat, w: nat) returns (count: nat)
      requires 0 < value < Modulus(w) && w >= 1
      ensures count < w && w - count == ByteLength(value)
    {
      count := 0;
      WordByteLength(value, w);
      TopByte(value);
      while count < w && ShiftRightBytes(value, w - 1 - count) % 256 == 0
        invariant 0 <= count <= w - ByteLength(value)
      {
        count := count + 1;
      }
    }

    /** parseNextHexDigitAndAddNibbleToValue: a character that is no digit is pushed back. */
    method ParseNextHexDigit(currentValue: nat, w: nat) returns (value: nat, exc: Exception)
      requires Valid()
      modifies this`cur
      ensures Valid()
      ensures exc == NoException <==> old(Rest()) != [] && IsHexDigit(old(Rest())[0])
      ensures exc == NoException ==>
                value == Truncate(16 * currentValue + HexCharToNibble(old(Rest())[0]), w) &&
                Rest() == old(Rest())[1..] && cur == old(cur) + 1 <= end
      ensures exc != NoException ==> value == currentValue && Rest() == old(Rest()) && (cur == old(cur) || cur == end + 1)
    {
      hide HexCharToNibble, Truncate;
      var nextChar;
      value := currentValue;
      nextChar, exc := ReadChar();
      if exc != NoException {
        return;
      }
      var nibble := HexCharToNibble(nextChar);
      if nibble < 0 {
        if cur > start {
          cur := cur - 1;
        }
        exc := InvalidHexDigit;
        return;
      }
      value := Truncate(16 * currentValue + nibble, w);
    }

    method ReadUIntegerAsHex(w: nat) returns (value: nat, exc: Exception)
      requires Valid() && w >= 1
      modifies this`cur
      ensures Valid() && !OverrunDetected()
      ensures Rest() == old(Rest())[HexPrefix(old(Rest()))..]
      ensures (value, exc, HexPrefix(old(Rest()))) == ReadUInteger(old(Rest()), w)
    {
      hide HexPrefix, HexValue, HexCharToNibble, Truncate, IsHexDigit;
      ghost var rest := Rest();
      var hexDigitsParsed := 0;
      value := 0;
      ZeroTruncated(w);
      while true
        invariant Valid() && 0 <= hexDigitsParsed <= HexPrefix(rest)
        invariant Rest() == rest[hexDigitsParsed..] && cur >= old(cur)
        invariant hexDigitsParsed > 0 ==> cur <= end
        invariant value == Truncate(HexValue(rest[..hexDigitsParsed]), w)
        decreases end + 1 - cur
      {
        value, exc := ParseNextHexDigit(value, w);
        if exc != NoException {
          break;
        }
        HexValueNext(rest, hexDigitsParsed, w);
        hexDigitsParsed := hexDigitsParsed + 1;
      }
      if OverrunDetected() {
        cur := end;
      }
      exc := if hexDigitsParsed == 0 then InvalidValue else NoException;
    }

    method WriteIntegerAsHex(value: int, w: nat) returns (exc: Exception)
      requires Valid() && w >= 1 && -IntMax(w) - 1 <= value <= IntMax(w)
      modifies this`cur, mem
      ensures Valid() && mem == old(mem) && start == old(start) && end == old(end)
      ensures View() == Put(old(View()), Capacity(), IntegerAsHex(value))
      ensures exc.NoException? <==> |IntegerAsHex(value)| <= old(BytesLeft())
      ensures mem[..start] == old(mem[..start]) && mem[end..] == old(mem[end..])
    {
      hide UIntegerAsHex, Modulus, IntMax, Put;
      IntMaxIsHalf(w);
      var magnitude := value;
      if value < 0 {
        magnitude := -value;
        PutConcat(View(), Capacity(), ['-' as int], UIntegerAsHex(magnitude));
        exc := WriteChar('-' as int);
        if exc != NoException {
          SignOverrun(old(View()), Capacity(), ['-' as int], UIntegerAsHex(magnitude));
          return;
        }
      }
      exc := WriteUIntegerAsHex(magnitude, w);
    }

    method IsNextCharEqualTo(thisChar: byte) returns (b: bool, exc: Exception)
      requires Valid()
      modifies this`cur
      ensures Valid()
      ensures exc == if old(BytesLeft()) < 1 then BufferOverrun else NoException
      ensures b <==> old(Rest()) != [] && old(Rest())[0] == thisChar
      ensures cur == old(cur) + (if b then 1 else 0)
    {
      if BytesLeft() < 1 {
        return false, BufferOverrun;
      }
      exc := NoException;
      b := mem[cur] == thisChar;
      if b {
        cur := cur + 1;
      }
    }

    method ReadIntegerAsHex(w: nat) returns (value: int, exc: Exception)
      requires Valid() && w >= 1
      modifies this`cur
      ensures Valid()
      ensures (value, exc) == (ReadInteger(old(Rest()), w).0, ReadInteger(old(Rest()), w).1)
      ensures Rest() == old(Rest())[ReadInteger(old(Rest()), w).2..]
    {
      hide ReadUInteger, ToSigned, HexPrefix;
      ghost var rest := Rest();
      var isNegative, magnitude;
      isNegative, exc := IsNextCharEqualTo('-' as int);
      if exc != NoException {
        return 0, exc;
      }
      ghost var sign := if isNegative then 1 else 0;
      assert Rest() == rest[sign..];
      ReadUIntegerConsumes(rest[sign..], w);
      magnitude, exc := ReadUIntegerAsHex(w);
      if exc != NoException {
        assert rest[sign..][0..] == rest[sign..];
        return 0, exc;
      }
      var (v, range) := ToSigned(isNegative, magnitude, w);
      assert rest[sign..][HexPrefix(rest[sign..])..] == rest[sign + HexPrefix(rest[sign..])..];
      return v, range;
    }

    method MatchesString(s: seq<byte>) returns (b: bool, exc: Exception)
      requires Valid()
      modifies this`cur
      ensures Valid()
      ensures exc == if old(BytesLeft()) < |s| then BufferOverrun else NoException
      ensures b <==> StartsWithWord(old(Rest()), s)
      ensures b <==> var rest := old(Rest());
                     |s| <= |rest| && rest[..|s|] == s && (|rest| == |s| || rest[|s|] in {':' as int, ';' as int, ',' as int})
      ensures cur == old(cur) + (if b then |s| else 0)
    {
      if BytesLeft() < |s| {
        return false, BufferOverrun;
      }
      exc := NoException;
      ghost var rest := Rest();
      assert forall j :: 0 <= j < |rest| ==> rest[j] == mem[cur + j];
      var i := 0;
      while i < |s| && mem[cur + i] == s[i]
        invariant 0 <= i <= |s|
        invariant forall j :: 0 <= j < i ==> mem[cur + j] == s[j]
      {
        i := i + 1;
      }
      b := i == |s| && (BytesLeft() == |s| ||
                        mem[cur + |s|] == ':' as int || mem[cur + |s|] == ';' as int || mem[cur + |s|] == ',' as int);
      assert i < |s| ==> rest[..|s|][i] != s[i];
      if b {
        assert rest[..|s|] == s;
        cur := cur + |s|;
      }
    }
  }
}
