/** Debuggee memory through hex text, mri/core/memory.c: the sized accesses and the byte loops
    agree wherever no access faults, and what each does where one does. */
module Memory {
  import opened Common
  import opened Hex
  import opened Buffers

  /** Mapped addresses and their bytes. Accessing any other address is a memory fault. */
  type Ram = map<nat, byte>

  /** address++ on a word of w bytes. */
  function Next(address: nat, w: nat): (a: nat) {
    Truncate(address + 1, w)
  }

  // ---------------------------------------------------------------- what an access means

  /** The bytes from address on, as far as the first fault and at most count of them. */
  function Readable(ram: Ram, address: nat, count: nat, w: nat): (bs: seq<byte>)
    ensures |bs| <= count
    decreases count
  {
    if count == 0 || address !in ram then []
    else [ram[address]] + Readable(ram, Next(address, w), count - 1, w)
  }

  /** The memory after storing bs from address on, as far as the first fault. */
  function Stored(ram: Ram, address: nat, bs: seq<byte>, w: nat): Ram
    decreases |bs|
  {
    if bs == [] || address !in ram then ram
    else Stored(ram[address := bs[0]], Next(address, w), bs[1..], w)
  }

  /** The bytes that the leading well-formed pairs of hex digits spell, at most count of them. */
  function HexBytes(s: seq<byte>, count: nat): (bs: seq<byte>)
    ensures |bs| <= count
    decreases count
  {
    if count == 0 || |s| < 2 || !IsHexDigit(s[0]) || !IsHexDigit(s[1]) then []
    else [HexAsByte(s[0], s[1])] + HexBytes(s[2..], count - 1)
  }

  // ---------------------------------------------------------------- little-endian words

  function FromLittleEndian(bs: seq<byte>): nat {
    if bs == [] then 0 else bs[0] + 256 * FromLittleEndian(bs[1..])
  }

  function ToLittleEndian(value: nat, n: nat): (bs: seq<byte>)
    ensures |bs| == n
  {
    if n == 0 then [] else [value % 256] + ToLittleEndian(value / 256, n - 1)
  }

  /** A word read and taken apart again is the bytes in memory order. */
  lemma {:induction false} LittleEndianRoundTrip(bs: seq<byte>)
    ensures ToLittleEndian(FromLittleEndian(bs), |bs|) == bs
  {
    if bs != [] {
      LittleEndianRoundTrip(bs[1..]);
      var high := FromLittleEndian(bs[1..]);
      assert (bs[0] + 256 * high) / 256 == high && (bs[0] + 256 * high) % 256 == bs[0];
      assert [bs[0]] + bs[1..] == bs;
    }
  }

  // ---------------------------------------------------------------- laws of the access functions

  /** Hex text written by one access is exactly what the other decodes. */
  lemma {:induction false} HexTextRoundTrip(bs: seq<byte>, after: seq<byte>)
    ensures HexBytes(TextAsHex(bs) + after, |bs|) == bs
    decreases |bs|
  {
    if bs != [] {
      TextAsHexFront(bs);
      ByteHexRoundTrip(bs[0]);
      var s := TextAsHex(bs) + after;
      assert s[2..] == TextAsHex(bs[1..]) + after;
      HexTextRoundTrip(bs[1..], after);
      assert [bs[0]] + bs[1..] == bs;
    }
  }

  lemma {:induction false} TextAsHexFront(bs: seq<byte>)
    requires bs != []
    ensures TextAsHex(bs) == ByteAsHex(bs[0]) + TextAsHex(bs[1..])
    decreases |bs|
  {
    var n := |bs| - 1;
    if n == 0 {
      assert TextAsHex(bs[..0]) == [] && TextAsHex(bs[1..]) == [];
    } else {
      TextAsHexFront(bs[..n]);
      assert bs[..n][1..] == bs[1..][..n - 1];
    }
  }

  /** The address i bytes on. */
  function Offset(address: nat, i: nat, w: nat): nat {
    if i == 0 then address else Next(Offset(address, i - 1, w), w)
  }

  lemma {:induction false} OffsetFront(address: nat, i: nat, w: nat)
    requires i > 0
    ensures Offset(address, i, w) == Offset(Next(address, w), i - 1, w)
  {
    if i > 1 { OffsetFront(address, i - 1, w); }
  }

  /** Storing maps no new address and touches none but the |bs| from address on. */
  lemma {:induction false} StoredTouchesOnly(ram: Ram, address: nat, bs: seq<byte>, w: nat, other: nat)
    requires forall i: nat :: i < |bs| ==> Offset(address, i, w) != other
    ensures Stored(ram, address, bs, w).Keys == ram.Keys
    ensures other in ram ==> Stored(ram, address, bs, w)[other] == ram[other]
    decreases |bs|
  {
    if bs != [] && address in ram {
      assert Offset(address, 0, w) != other;
      forall i: nat | i < |bs| - 1 ensures Offset(Next(address, w), i, w) != other {
        OffsetFront(address, i + 1, w);
      }
      StoredTouchesOnly(ram[address := bs[0]], Next(address, w), bs[1..], w, other);
    }
  }

  lemma {:induction false} OffsetIsSum(address: nat, i: nat, w: nat)
    requires address < Modulus(w)
    ensures Offset(address, i, w) == Truncate(address + i, w)
  {
    hide Modulus, Truncate;
    if i == 0 {
      TruncateSmall(address, w);
    } else {
      OffsetIsSum(address, i - 1, w);
      TruncateStep(address + i - 1, w);
    }
  }

  lemma TruncateStep(x: nat, w: nat)
    ensures Truncate(Truncate(x, w) + 1, w) == Truncate(x + 1, w)
  {
    var m := Modulus(w);
    hide Modulus;
    var q, r := x / m, x % m;
    if r + 1 < m {
      RemainderIsUnique(x + 1, q, r + 1, m);
      RemainderIsUnique(r + 1, 0, r + 1, m);
    } else {
      assert (q + 1) * m == q * m + m;
      RemainderIsUnique(x + 1, q + 1, 0, m);
      RemainderIsUnique(r + 1, 1, 0, m);
    }
  }

  /** Different bytes of one access have different addresses. */
  lemma OffsetsDiffer(address: nat, i: nat, w: nat)
    requires address < Modulus(w) && 0 < i < Modulus(w)
    ensures Offset(address, i, w) != address
  {
    OffsetIsSum(address, i, w);
    var m := Modulus(w);
    hide Modulus;
    if address + i < m {
      RemainderIsUnique(address + i, 0, address + i, m);
    } else {
      RemainderIsUnique(address + i, 1, address + i - m, m);
    }
  }

  /** The bytes read are those at the addresses from the first on, which wrap at the word, and a read
      stops short only at an address that is not mapped. */
  lemma {:induction false} ReadableAt(ram: Ram, address: nat, count: nat, w: nat, i: nat)
    requires address < Modulus(w)
    ensures var bs, at := Readable(ram, address, count, w), (address + i) % Modulus(w);
            (i < |bs| ==> at in ram && bs[i] == ram[at]) && (i == |bs| < count ==> at !in ram)
    decreases count
  {
    OffsetIsSum(address, i, w);
    ReadableAtOffset(ram, address, count, w, i);
  }

  lemma {:induction false} ReadableAtOffset(ram: Ram, address: nat, count: nat, w: nat, i: nat)
    ensures var bs, at := Readable(ram, address, count, w), Offset(address, i, w);
            (i < |bs| ==> at in ram && bs[i] == ram[at]) && (i == |bs| < count ==> at !in ram)
    decreases count
  {
    hide Modulus, Truncate;
    if count > 0 && address in ram && i > 0 {
      OffsetFront(address, i, w);
      ReadableAtOffset(ram, Next(address, w), count - 1, w, i - 1);
    }
  }

  /** A store puts each byte before the first fault at its address, and nothing behind the fault. */
  lemma {:induction false} StoredAt(ram: Ram, address: nat, bs: seq<byte>, w: nat, i: nat)
    requires address < Modulus(w) && i < |bs| <= Modulus(w)
    ensures var at, after := (address + i) % Modulus(w), Stored(ram, address, bs, w);
            if i < |Readable(ram, address, |bs|, w)| then at in after && after[at] == bs[i]
            else at in ram ==> at in after && after[at] == ram[at]
  {
    OffsetIsSum(address, i, w);
    StoredAtOffset(ram, address, bs, w, i);
  }

  lemma {:induction false} StoredAtOffset(ram: Ram, address: nat, bs: seq<byte>, w: nat, i: nat)
    requires address < Modulus(w) && i < |bs| <= Modulus(w)
    ensures Stored(ram, address, bs, w).Keys == ram.Keys
    ensures var at, after := Offset(address, i, w), Stored(ram, address, bs, w);
            if i < |Readable(ram, address, |bs|, w)| then at in after && after[at] == bs[i]
            else at in ram ==> at in after && after[at] == ram[at]
    decreases |bs|
  {
    hide Modulus, Truncate;
    if address in ram {
      var next, ram' := Next(address, w), ram[address := bs[0]];
      ReadableDependsOnKeys(ram, ram', next, |bs| - 1, w);
      if i == 0 {
        forall j: nat | j < |bs| - 1 ensures Offset(next, j, w) != address {
          OffsetFront(address, j + 1, w);
          OffsetsDiffer(address, j + 1, w);
        }
        StoredTouchesOnly(ram', next, bs[1..], w, address);
      } else {
        OffsetFront(address, i, w);
        OffsetsDiffer(address, i, w);
        StoredAtOffset(ram', next, bs[1..], w, i - 1);
      }
    }
  }

  /** What was stored without a fault is what is read back. */
  lemma {:induction false} StoredIsReadBack(ram: Ram, address: nat, bs: seq<byte>, w: nat)
    requires address < Modulus(w) && |bs| <= Modulus(w)
    requires |Readable(ram, address, |bs|, w)| == |bs|
    ensures Readable(Stored(ram, address, bs, w), address, |bs|, w) == bs
    decreases |bs|
  {
    hide Modulus, Truncate;
    if bs != [] {
      var next, ram' := Next(address, w), ram[address := bs[0]];
      var after := Stored(ram', next, bs[1..], w);
      ReadableDependsOnKeys(ram, ram', next, |bs| - 1, w);
      StoredIsReadBack(ram', next, bs[1..], w);
      forall i: nat | i < |bs| - 1 ensures Offset(next, i, w) != address {
        OffsetFront(address, i + 1, w);
        OffsetsDiffer(address, i + 1, w);
      }
      StoredTouchesOnly(ram', next, bs[1..], w, address);
      assert [bs[0]] + bs[1..] == bs;
    }
  }

  lemma {:induction false} ReadableDependsOnKeys(a: Ram, b: Ram, address: nat, count: nat, w: nat)
    requires a.Keys == b.Keys
    ensures |Readable(a, address, count, w)| == |Readable(b, address, count, w)|
    decreases count
  {
    if count > 0 && address in a {
      ReadableDependsOnKeys(a, b, Next(address, w), count - 1, w);
    }
  }

  /** Reading memory as hex text and writing that text elsewhere copies exactly those bytes. */
  lemma CopyThroughHexText(ram: Ram, from: nat, to: nat, count: nat, after: seq<byte>, w: nat)
    requires from < Modulus(w) && to < Modulus(w) && count <= Modulus(w)
    requires |Readable(ram, from, count, w)| == count == |Readable(ram, to, count, w)|
    ensures var text := TextAsHex(Readable(ram, from, count, w));
            var ram' := Stored(ram, to, HexBytes(text + after, count), w);
            Readable(ram', to, count, w) == Readable(ram, from, count, w)
  {
    hide Modulus, Readable, Stored, HexBytes;
    var bs := Readable(ram, from, count, w);
    HexTextRoundTrip(bs, after);
    StoredIsReadBack(ram, to, bs, w);
  }

  lemma EmptyHexBytes(s: seq<byte>)
    ensures HexBytes(s, 0) == []
  {
  }

  lemma HexBytesStep(s: seq<byte>, count: nat)
    requires count > 0
    ensures |s| >= 2 && IsHexDigit(s[0]) && IsHexDigit(s[1]) ==>
              HexBytes(s, count) == [HexAsByte(s[0], s[1])] + HexBytes(s[2..], count - 1)
    ensures !(|s| >= 2 && IsHexDigit(s[0]) && IsHexDigit(s[1])) ==> HexBytes(s, count) == []
  {
  }

  // ---------------------------------------------------------------- the platform's accesses

  /** The debuggee's memory; an access that faults changes nothing. */
  class DebuggeeMemory {
    var ram: Ram

    method MemRead(address: nat, size: nat, w: nat) returns (value: nat, fault: bool)
      ensures fault <==> |Readable(ram, address, size, w)| < size
      ensures !fault ==> value == FromLittleEndian(Readable(ram, address, size, w))
    {
      var bs := Readable(ram, address, size, w);
      fault := |bs| < size;
      value := if fault then 0 else FromLittleEndian(bs);
    }

    method MemWrite(address: nat, value: nat, size: nat, w: nat) returns (fault: bool)
      modifies this
      ensures fault <==> |Readable(old(ram), address, size, w)| < size
      ensures ram == if fault then old(ram) else Stored(old(ram), address, ToLittleEndian(value, size), w)
    {
      fault := |Readable(ram, address, size, w)| < size;
      if !fault {
        ram := Stored(ram, address, ToLittleEndian(value, size), w);
      }
    }
  }

  // ---------------------------------------------------------------- reading

  method ReadMemoryBytesIntoHexBuffer(buffer: Buffer, memory: DebuggeeMemory, start: nat, count: nat, w: nat)
    returns (n: nat)
    requires buffer.Valid()
    modifies buffer`cur, buffer.mem
    ensures buffer.Valid() && buffer.mem == old(buffer.mem)
    ensures var bs := Readable(memory.ram, start, count, w);
            n == |bs| && buffer.View() == Put(old(buffer.View()), old(buffer.Capacity()), TextAsHex(bs))
  {
    hide Put, Buffer.Wrote, ByteAsHex;
    var address, left := start, count;
    ghost var all, done, before, capacity := Readable(memory.ram, start, count, w), [], buffer.View(), buffer.Capacity();
    n := 0;
    PutNothing(before, capacity);
    while left > 0
      invariant buffer.Valid() && buffer.mem == old(buffer.mem) && buffer.Capacity() == capacity
      invariant n == |done| && all == done + Readable(memory.ram, address, left, w)
      invariant buffer.View() == Put(before, capacity, TextAsHex(done))
    {
      left := left - 1;
      if address !in memory.ram {
        assert all == done;
        return;
      }
      var b := memory.ram[address];
      address := Next(address, w);
      PutConcat(before, capacity, TextAsHex(done), ByteAsHex(b));
      assert (done + [b])[..|done|] == done;
      var _ := buffer.WriteByteAsHex(b);
      done := done + [b];
      n := n + 1;
    }
    assert all == done;
  }

  /** Whether an access of count bytes goes through one sized access. */
  predicate IsSized(address: nat, count: nat, w: nat) {
    (count == 2 && address % 2 == 0) || (count == 4 && address % 4 == 0) ||
    (count == 8 && w >= 8 && address % 8 == 0)
  }

  method WriteBytesToBufferAsHex(buffer: Buffer, bs: seq<byte>)
    requires buffer.Valid()
    modifies buffer`cur, buffer.mem
    ensures buffer.Valid() && buffer.mem == old(buffer.mem)
    ensures buffer.View() == Put(old(buffer.View()), old(buffer.Capacity()), TextAsHex(bs))
  {
    hide Put, Buffer.Wrote, ByteAsHex;
    ghost var before, capacity := buffer.View(), buffer.Capacity();
    PutNothing(before, capacity);
    assert bs[..0] == [];
    for i := 0 to |bs|
      invariant buffer.Valid() && buffer.mem == old(buffer.mem) && buffer.Capacity() == capacity
      invariant buffer.View() == Put(before, capacity, TextAsHex(bs[..i]))
    {
      PutConcat(before, capacity, TextAsHex(bs[..i]), ByteAsHex(bs[i]));
      assert bs[..i + 1][..i] == bs[..i];
      var _ := buffer.WriteByteAsHex(bs[i]);
    }
    assert bs[..|bs|] == bs;
  }

  /** ReadMemoryIntoHexBuffer: without a fault the text does not depend on how it was accessed;
      with one, a sized access delivers nothing and the byte loop what came before the fault. */
  method ReadMemoryIntoHexBuffer(buffer: Buffer, memory: DebuggeeMemory, address: nat, count: nat, w: nat)
    returns (n: nat)
    requires buffer.Valid()
    modifies buffer`cur, buffer.mem
    ensures buffer.Valid()
    ensures var bs := Readable(memory.ram, address, count, w);
            var sized := (count == 2 && address % 2 == 0) || (count == 4 && address % 4 == 0) ||
                         (count == 8 && w >= 8 && address % 8 == 0);
            var delivered := if |bs| < count && sized then [] else bs;
            n == |delivered| && buffer.View() == Put(old(buffer.View()), old(buffer.Capacity()), TextAsHex(delivered))
  {
    hide Put, Readable, FromLittleEndian, ToLittleEndian;
    if IsSized(address, count, w) {
      PutNothing(buffer.View(), buffer.Capacity());
      assert TextAsHex([]) == [];
      var value, fault := memory.MemRead(address, count, w);
      if fault {
        return 0;
      }
      LittleEndianRoundTrip(Readable(memory.ram, address, count, w));
      WriteBytesToBufferAsHex(buffer, ToLittleEndian(value, count));
      return count;
    }
    n := ReadMemoryBytesIntoHexBuffer(buffer, memory, address, count, w);
  }

  // ---------------------------------------------------------------- writing

  method WriteHexBufferToByteMemory(buffer: Buffer, memory: DebuggeeMemory, start: nat, count: nat, w: nat)
    returns (ok: bool)
    requires buffer.Valid()
    modifies buffer`cur, memory
    ensures buffer.Valid()
    ensures var bs := HexBytes(old(buffer.Rest()), count);
            memory.ram == Stored(old(memory.ram), start, bs, w) &&
            (ok <==> |bs| == count && |Readable(old(memory.ram), start, count, w)| == count)
  {
    var address, left := start, count;
    ghost var bs := HexBytes(buffer.Rest(), count);
    ghost var ram := memory.ram;
    while left > 0
      invariant buffer.Valid() && memory.ram.Keys == ram.Keys
      invariant Stored(ram, start, bs, w) == Stored(memory.ram, address, HexBytes(buffer.Rest(), left), w)
      invariant |bs| == count <==> |HexBytes(buffer.Rest(), left)| == left
      invariant |Readable(ram, start, count, w)| == count <==> |Readable(ram, address, left, w)| == left
    {
      ghost var s := buffer.Rest();
      var b, exc := buffer.ReadByteAsHex();
      if exc != NoException {
        return false;
      }
      assert buffer.Rest() == s[2..];
      assert HexBytes(s, left) == [b] + HexBytes(s[2..], left - 1);
      left := left - 1;
      if address !in memory.ram {
        return false;
      }
      memory.ram := memory.ram[address := b];
      address := Next(address, w);
    }
    ok := true;
  }

  method ReadBytesFromHexBuffer(buffer: Buffer, length: nat) returns (bs: seq<byte>, ok: bool)
    requires buffer.Valid()
    modifies buffer`cur
    ensures buffer.Valid() && bs == HexBytes(old(buffer.Rest()), length) && (ok <==> |bs| == length)
  {
    hide HexBytes, HexAsByte, IsHexDigit;
    bs := [];
    ghost var all := HexBytes(buffer.Rest(), length);
    var left := length;
    while left > 0
      invariant buffer.Valid() && |bs| + left == length
      invariant all == bs + HexBytes(buffer.Rest(), left)
    {
      ghost var s := buffer.Rest();
      HexBytesStep(s, left);
      var b, exc := buffer.ReadByteAsHex();
      if exc != NoException {
        assert all == bs;
        return bs, false;
      }
      assert buffer.Rest() == s[2..];
      assert bs + ([b] + HexBytes(s[2..], left - 1)) == bs + [b] + HexBytes(s[2..], left - 1);
      bs := bs + [b];
      left := left - 1;
    }
    EmptyHexBytes(buffer.Rest());
    assert all == bs;
    ok := true;
  }

  /** WriteHexBufferToMemory: success stores exactly the spelled bytes, whichever access is used;
      a sized access that fails stores nothing, the byte loop what came before the failure. */
  method WriteHexBufferToMemory(buffer: Buffer, memory: DebuggeeMemory, address: nat, count: nat, w: nat)
    returns (ok: bool)
    requires buffer.Valid()
    modifies buffer`cur, memory
    ensures buffer.Valid()
    ensures var bs := HexBytes(old(buffer.Rest()), count);
            (ok <==> |bs| == count && |Readable(old(memory.ram), address, count, w)| == count) &&
            var sized := (count == 2 && address % 2 == 0) || (count == 4 && address % 4 == 0) ||
                         (count == 8 && w >= 8 && address % 8 == 0);
            memory.ram == if !ok && sized then old(memory.ram) else Stored(old(memory.ram), address, bs, w)
  {
    hide HexBytes, Readable, Stored, FromLittleEndian, ToLittleEndian;
    if IsSized(address, count, w) {
      var bs, read := ReadBytesFromHexBuffer(buffer, count);
      if !read {
        return false;
      }
      LittleEndianRoundTrip(bs);
      var fault := memory.MemWrite(address, FromLittleEndian(bs), count, w);
      return !fault;
    }
    ok := WriteHexBufferToByteMemory(buffer, memory, address, count, w);
  }
}
