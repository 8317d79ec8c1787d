/** mri/core/packet.c: receiving a packet from a noisy stream and sending one in place, with the
    data buffer and the packet buffer as two views of one array. */
module Packets {
  import opened Common
  import opened Hex
  import opened Buffers
  import opened PacketProtocol
  import opened PacketSessions

  /** The serial link: the characters that will arrive, how far they were read, and everything
      sent. Reading past the end of the script is waiting for ever. */
  class Link {
    const script: seq<Arrival>
    var pos: nat
    var sent: seq<byte>
    var controlCEncountered: bool

    ghost predicate Valid()
      reads this`pos
    {
      pos <= |script|
    }

    constructor (script: seq<Arrival>)
      ensures Valid() && this.script == script && pos == 0 && sent == [] && !controlCEncountered
    {
      this.script := script;
      pos := 0;
      sent := [];
      controlCEncountered := false;
    }

    method SendChar(c: byte)
      modifies this`sent
      ensures sent == old(sent) + [c]
    {
      sent := sent + [c];
    }

    /** Platform_CommSendBuffer */
    method SendBuffer(buffer: Buffer)
      requires buffer.Valid()
      modifies this`sent, buffer`cur
      ensures buffer.Valid() && sent == old(sent) + old(buffer.Rest())
      ensures old(buffer.cur) <= buffer.end ==> buffer.cur == buffer.end
    {
      ghost var all, first := buffer.Rest(), buffer.cur;
      while buffer.BytesLeft() > 0
        invariant buffer.Valid() && (first <= buffer.end ==> buffer.cur <= buffer.end)
        invariant sent + buffer.Rest() == old(sent) + all
        decreases buffer.BytesLeft()
      {
        ghost var rest := buffer.Rest();
        var c, _ := buffer.ReadChar();
        assert rest == [c] + buffer.Rest();
        assert sent + rest == sent + [c] + buffer.Rest();
        SendChar(c);
      }
      assert buffer.Rest() == [];
    }
  }

  class Packet {
    const packetBuffer: Buffer
    const dataBuffer: Buffer
    var lastChar: byte
    var calculatedChecksum: byte
    var expectedChecksum: byte

    /** The data buffer lies inside the packet buffer, one byte for '$' before it and room for
        '#' and two digits behind it. */
    ghost predicate Valid()
      reads packetBuffer, dataBuffer
    {
      packetBuffer != dataBuffer && packetBuffer.Valid() && dataBuffer.Valid() &&
      dataBuffer.mem == packetBuffer.mem && dataBuffer.start == packetBuffer.start + 1 &&
      dataBuffer.end + 3 <= packetBuffer.end
    }

    constructor (mem: array<byte>, start: nat, size: nat)
      requires size >= 4 && start + size <= mem.Length
      ensures Valid() && fresh(dataBuffer) && fresh(packetBuffer)
      ensures dataBuffer.mem == mem && dataBuffer.start == start + 1 && dataBuffer.end == start + size - 3
      ensures packetBuffer.end == start + size && dataBuffer.cur == start + 1
    {
      dataBuffer := new Buffer(mem, start + 1, size - 4);
      packetBuffer := new Buffer(mem, start, size);
      lastChar := 0;
      calculatedChecksum := 0;
      expectedChecksum := 0;
    }

    method Init(mem: array<byte>, start: nat, size: nat)
      requires packetBuffer != dataBuffer && size >= 4 && start + size <= mem.Length
      modifies packetBuffer, dataBuffer
      ensures Valid() && dataBuffer.mem == mem && dataBuffer.start == start + 1 && dataBuffer.end == start + size - 3
      ensures packetBuffer.end == start + size && dataBuffer.cur == dataBuffer.start
    {
      dataBuffer.Init(mem, start + 1, size - 4);
      packetBuffer.Init(mem, start, size);
    }

    method InitPacketStructure()
      requires Valid()
      modifies this, packetBuffer`cur
      ensures Valid() && lastChar == calculatedChecksum == expectedChecksum == 0 && packetBuffer.cur == packetBuffer.start
    {
      lastChar := 0;
      calculatedChecksum := 0;
      expectedChecksum := 0;
      packetBuffer.Reset();
    }

    /** The array outside [low, high). */
    ghost function Outside(low: nat, high: nat): (seq<byte>, seq<byte>)
      reads dataBuffer`mem, dataBuffer.mem
      requires low <= high <= dataBuffer.mem.Length
    {
      (dataBuffer.mem[..low], dataBuffer.mem[high..])
    }

    // -------------------------------------------------------------- receiving

    /** getNextCharFromGdb; not ok means no character will ever come. */
    method GetNextCharFromGdb(link: Link) returns (ok: bool, c: byte)
      requires link.Valid()
      modifies this`lastChar, link`pos
      ensures link.Valid() && ok == (old(link.pos) < |link.script|)
      ensures ok ==> c == lastChar == link.script[old(link.pos)].ch && link.pos == old(link.pos) + 1
      ensures !ok ==> link.pos == old(link.pos) && lastChar == old(lastChar)
    {
      if link.pos < |link.script| {
        ok, c := true, link.script[link.pos].ch;
        link.pos := link.pos + 1;
        lastChar := c;
      } else {
        ok, c := false, 0;
      }
    }

    method WaitForStartOfNextPacket(link: Link, ghost capacity: nat) returns (ok: bool)
      requires link.Valid()
      modifies this`lastChar, link`pos
      ensures link.Valid() && link.pos >= old(link.pos) && (ok ==> lastChar == DOLLAR)
      ensures NextFrame(capacity, Opened(old(lastChar)), link.script, old(link.pos))
           == if ok then NextFrame(capacity, Body([], 0), link.script, link.pos) else Blocked
    {
      hide NextFrame;
      ok := true;
      while lastChar != DOLLAR
        invariant link.Valid() && link.pos >= old(link.pos)
        invariant NextFrame(capacity, Opened(old(lastChar)), link.script, old(link.pos))
               == NextFrame(capacity, Opened(lastChar), link.script, link.pos)
        decreases |link.script| - link.pos
      {
        var c;
        ok, c := GetNextCharFromGdb(link);
        if !ok {
          NothingMore(capacity, Hunting, link.script);
          return;
        }
        HuntingStep(capacity, link.script, link.pos - 1);
      }
    }

    /** The loop body of getPacketData up to its store: c is the character to store, unless the
        second half of an escape was itself the start or the end of a packet. */
    method UpdateAndUnescape(link: Link, nextChar: byte, ghost capacity: nat, ghost text: seq<byte>)
      returns (ok: bool, stop: bool, c: byte)
      requires link.Valid() && link.pos > 0 && nextChar == link.script[link.pos - 1].ch
      requires nextChar != DOLLAR && nextChar != HASH && |text| < capacity
      modifies this`lastChar, this`calculatedChecksum, link`pos
      ensures link.Valid() && link.pos >= old(link.pos)
      ensures ok && stop ==> c == lastChar && (c == DOLLAR || c == HASH)
      ensures NextFrame(capacity, Body(text, old(calculatedChecksum)), link.script, old(link.pos) - 1)
           == if !ok then Blocked
              else if !stop then NextFrame(capacity, Body(text + [c], calculatedChecksum), link.script, link.pos)
              else if c == HASH then NextFrame(capacity, Digit1(text, calculatedChecksum), link.script, link.pos)
              else NextFrame(capacity, Opened(c), link.script, link.pos)
    {
      hide NextFrame, FlipCase, Add;
      BodyStep(capacity, text, calculatedChecksum, link.script, link.pos - 1);
      calculatedChecksum := Add(calculatedChecksum, nextChar);
      ok, stop, c := true, false, nextChar;
      if c == BRACE {
        ok, c := GetNextCharFromGdb(link);
        if !ok {
          NothingMore(capacity, Escaped(text, calculatedChecksum), link.script);
          return;
        }
        EscapedStep(capacity, text, calculatedChecksum, link.script, link.pos - 1);
        if c == DOLLAR || c == HASH {
          return true, true, c;
        }
        calculatedChecksum := Add(calculatedChecksum, c);
        c := FlipCase(c);
      }
    }

    method GetPacketData(link: Link) returns (ok: bool, complete: bool)
      requires Valid() && link.Valid()
      modifies this`lastChar, this`calculatedChecksum, dataBuffer`cur, dataBuffer.mem, link`pos
      ensures Valid() && link.Valid() && link.pos >= old(link.pos) && (ok ==> link.pos > old(link.pos))
      ensures dataBuffer.mem == old(dataBuffer.mem) && !dataBuffer.OverrunDetected()
      ensures Outside(old(dataBuffer.start), old(dataBuffer.end)) == old(Outside(dataBuffer.start, dataBuffer.end))
      ensures var next := NextFrame(dataBuffer.Capacity(), Body([], 0), link.script, old(link.pos));
              if !ok then next == Blocked
              else if !complete then next == NextFrame(dataBuffer.Capacity(), Opened(lastChar), link.script, link.pos)
              else dataBuffer.View().Text? &&
                   next == NextFrame(dataBuffer.Capacity(), Digit1(dataBuffer.View().text, calculatedChecksum),
                                     link.script, link.pos)
    {
      hide NextFrame, Patch, Buffer.Wrote;
      ghost var low, high := dataBuffer.start, dataBuffer.end;
      ghost var outside := Outside(low, high);
      var nextChar;
      ghost var capacity := dataBuffer.Capacity();
      ghost var next := NextFrame(capacity, Body([], 0), link.script, link.pos);
      dataBuffer.Reset();
      calculatedChecksum := 0;
      ghost var text := [];
      assert dataBuffer.View() == Text(text);
      ok, nextChar := GetNextCharFromGdb(link);
      if !ok {
        NothingMore(capacity, Body([], 0), link.script);
        return false, false;
      }
      while dataBuffer.BytesLeft() > 0 && nextChar != DOLLAR && nextChar != HASH
        invariant Valid() && link.Valid() && link.pos > old(link.pos)
        invariant nextChar == lastChar == link.script[link.pos - 1].ch
        invariant dataBuffer.mem == old(dataBuffer.mem) && Outside(low, high) == outside
        invariant dataBuffer.View() == Text(text) && dataBuffer.Capacity() == capacity
        invariant next == NextFrame(capacity, Body(text, calculatedChecksum), link.script, link.pos - 1)
        decreases |link.script| - link.pos
      {
        var stop;
        ok, stop, nextChar := UpdateAndUnescape(link, nextChar, capacity, text);
        if !ok || stop {
          return ok, nextChar == HASH;
        }
        var _ := dataBuffer.WriteChar(nextChar);
        text := text + [nextChar];
        ok, nextChar := GetNextCharFromGdb(link);
        if !ok {
          NothingMore(capacity, Body(text, calculatedChecksum), link.script);
          return false, false;
        }
      }
      BodyStep(capacity, text, calculatedChecksum, link.script, link.pos - 1);
      complete := nextChar == HASH;
    }

    method ExtractExpectedChecksum(link: Link) returns (ok: bool)
      requires link.Valid()
      modifies this`lastChar, this`expectedChecksum, link`pos
      ensures link.Valid() && ok == (old(link.pos) + 2 <= |link.script|)
      ensures link.pos == if ok then old(link.pos) + 2 else |link.script|
      ensures ok ==> lastChar == link.script[link.pos - 1].ch &&
                     expectedChecksum == Expected(calculatedChecksum, link.script[link.pos - 2].ch, lastChar)
    {
      var char1, char2;
      ok, char1 := GetNextCharFromGdb(link);
      if !ok {
        return;
      }
      ok, char2 := GetNextCharFromGdb(link);
      if !ok {
        return;
      }
      var hiNibble := HexCharToNibble(char1);
      var loNibble := HexCharToNibble(char2);
      if hiNibble < 0 || loNibble < 0 {
        expectedChecksum := 255 - calculatedChecksum;
      } else {
        expectedChecksum := hiNibble * 16 + loNibble;
      }
    }

    /** The frame in hand, as the protocol names it. */
    ghost function InHand(): Frame
      reads this, dataBuffer, dataBuffer.mem
      requires dataBuffer.Valid() && dataBuffer.View().Text?
    {
      Frame(dataBuffer.View().text, calculatedChecksum, expectedChecksum)
    }

    method GetPacketDataAndExpectedChecksum(link: Link) returns (ok: bool)
      requires Valid() && link.Valid()
      modifies this, dataBuffer`cur, dataBuffer.mem, link`pos
      ensures Valid() && link.Valid() && link.pos >= old(link.pos) && (ok ==> dataBuffer.View().Text?)
      ensures dataBuffer.mem == old(dataBuffer.mem)
      ensures Outside(old(dataBuffer.start), old(dataBuffer.end)) == old(Outside(dataBuffer.start, dataBuffer.end))
      ensures NextFrame(dataBuffer.Capacity(), Opened(old(lastChar)), link.script, old(link.pos))
           == if ok then Complete(InHand(), Opened(lastChar), link.pos) else Blocked
    {
      hide NextFrame, Opened;
      ghost var low, high := dataBuffer.start, dataBuffer.end;
      ghost var outside := Outside(low, high);
      ghost var capacity, script := dataBuffer.Capacity(), link.script;
      ghost var next := NextFrame(capacity, Opened(lastChar), script, link.pos);
      while true
        invariant Valid() && link.Valid() && link.pos >= old(link.pos) && dataBuffer.Capacity() == capacity
        invariant next == NextFrame(capacity, Opened(lastChar), script, link.pos)
        invariant dataBuffer.mem == old(dataBuffer.mem) && Outside(low, high) == outside
        decreases |script| - link.pos
      {
        var complete;
        ok := WaitForStartOfNextPacket(link, capacity);
        if !ok {
          return;
        }
        ok, complete := GetPacketData(link);
        if !ok {
          return;
        }
        if complete {
          break;
        }
      }
      DigitSteps(capacity, dataBuffer.View().text, calculatedChecksum, script, link.pos);
      ok := ExtractExpectedChecksum(link);
    }

    method GetMostRecentPacket(link: Link) returns (ok: bool)
      requires Valid() && link.Valid()
      modifies this, dataBuffer`cur, dataBuffer.mem, link`pos, link`sent
      ensures Valid() && link.Valid() && (ok ==> link.pos > old(link.pos) && dataBuffer.View().Text?)
      ensures dataBuffer.mem == old(dataBuffer.mem)
      ensures Outside(old(dataBuffer.start), old(dataBuffer.end)) == old(Outside(dataBuffer.start, dataBuffer.end))
      ensures Receive(dataBuffer.Capacity(), Opened(old(lastChar)), link.script, old(link.pos))
           == if !ok then Waiting([])
              else if InHand().Valid() then Accepted([PLUS], dataBuffer.View().text, link.pos)
              else Answered(MINUS, Receive(dataBuffer.Capacity(), Opened(lastChar), link.script, link.pos))
      ensures link.sent == old(link.sent) + if !ok then [] else if InHand().Valid() then [PLUS] else [MINUS]
    {
      hide NextFrame, Opened;
      ghost var low, high := dataBuffer.start, dataBuffer.end;
      ghost var outside := Outside(low, high);
      ghost var capacity, script := dataBuffer.Capacity(), link.script;
      ghost var session := Receive(capacity, Opened(lastChar), script, link.pos);
      ok := GetPacketDataAndExpectedChecksum(link);
      while ok && HasReceiveData(link.script, link.pos)
        invariant Valid() && link.Valid() && dataBuffer.Capacity() == capacity
        invariant !ok ==> session == Waiting([])
        invariant ok ==> link.pos > old(link.pos) && dataBuffer.View().Text?
        invariant ok ==> session == if HasReceiveData(script, link.pos) then Receive(capacity, Opened(lastChar), script, link.pos)
                                    else if InHand().Valid() then Accepted([PLUS], dataBuffer.View().text, link.pos)
                                    else Answered(MINUS, Receive(capacity, Opened(lastChar), script, link.pos))
        invariant link.sent == old(link.sent)
        invariant dataBuffer.mem == old(dataBuffer.mem) && Outside(low, high) == outside
        decreases ok, |script| - link.pos
      {
        ok := GetPacketDataAndExpectedChecksum(link);
      }
      if !ok {
        return;
      }
      link.SendChar(if expectedChecksum == calculatedChecksum then PLUS else MINUS);
    }

    /** Packet_GetFromGDB; not done means it is still waiting for a character. */
    method GetFromGDB(link: Link) returns (done: bool)
      requires Valid() && link.Valid()
      modifies this, packetBuffer`cur, dataBuffer`cur, dataBuffer`end, dataBuffer.mem, link`pos, link`sent
      ensures Valid() && link.Valid() && dataBuffer.start == old(dataBuffer.start)
      ensures dataBuffer.mem == old(dataBuffer.mem)
      ensures Outside(old(dataBuffer.start), old(dataBuffer.end)) == old(Outside(dataBuffer.start, dataBuffer.end))
      ensures var session := Receive(old(dataBuffer.Capacity()), Hunting, link.script, old(link.pos));
              link.sent == old(link.sent) + session.sent && done == session.Accepted? &&
              (done ==> dataBuffer.Rest() == session.payload && dataBuffer.cur == dataBuffer.start &&
                        link.pos == session.pos)
      ensures done ==> EndsInFrameFor(Chars(link.script[old(link.pos)..link.pos]), dataBuffer.Rest())
    {
      hide NextFrame, Opened, Receive, Answered, EndsInFrameFor;
      ghost var low, high := dataBuffer.start, dataBuffer.end;
      ghost var outside := Outside(low, high);
      InitPacketStructure();
      ghost var capacity, script := dataBuffer.Capacity(), link.script;
      ghost var session := Receive(capacity, Hunting, script, link.pos);
      OpenedZero();
      ghost var naks := [];
      PrependNothing(session);
      while true
        invariant Valid() && link.Valid() && dataBuffer.Capacity() == capacity
        invariant session == Prepend(naks, Receive(capacity, Opened(lastChar), script, link.pos))
        invariant link.sent == old(link.sent) + naks
        invariant dataBuffer.mem == old(dataBuffer.mem) && Outside(low, high) == outside
        decreases |script| - link.pos
      {
        done := GetMostRecentPacket(link);
        if !done {
          assert naks + [] == naks;
          return;
        }
        if expectedChecksum == calculatedChecksum {
          break;
        }
        PrependAnswer(naks, MINUS, Receive(capacity, Opened(lastChar), script, link.pos));
        naks := naks + [MINUS];
      }
      ResetBufferToEnableFutureReading();
      Genuine(capacity, script, old(link.pos));
    }

    /** resetBufferToEnableFutureReadingOfValidPacketData */
    method ResetBufferToEnableFutureReading()
      requires Valid() && dataBuffer.View().Text?
      modifies dataBuffer`cur, dataBuffer`end
      ensures Valid() && dataBuffer.cur == dataBuffer.start == old(dataBuffer.start)
      ensures dataBuffer.Rest() == old(dataBuffer.View().text)
    {
      dataBuffer.SetEndOfBuffer();
      dataBuffer.Reset();
    }

    // -------------------------------------------------------------- sending

    /** The frame built around the data already in the data buffer. */
    ghost function Wire(): seq<byte>
      reads packetBuffer, packetBuffer.mem
      requires packetBuffer.Valid()
    {
      packetBuffer.mem[packetBuffer.start..packetBuffer.end]
    }

    ghost function Data(): seq<byte>
      reads dataBuffer, dataBuffer.mem
      requires dataBuffer.Valid()
    {
      dataBuffer.mem[dataBuffer.start..dataBuffer.end]
    }

    /** processPacketData: sums the data where it lies and steps over it. */
    method ProcessPacketData()
      requires Valid() && packetBuffer.cur == dataBuffer.start && dataBuffer.cur == dataBuffer.start
      requires calculatedChecksum == 0
      modifies this`calculatedChecksum, dataBuffer`cur, packetBuffer`cur
      ensures Valid() && calculatedChecksum == Sum(Data()) == Total(Data()) % 256
      ensures packetBuffer.cur == dataBuffer.end
    {
      hide Add;
      var length := 0;
      ghost var data := Data();
      while dataBuffer.BytesLeft() > 0
        invariant Valid() && packetBuffer.cur == dataBuffer.start
        invariant dataBuffer.cur == dataBuffer.start + length <= dataBuffer.end
        invariant Data() == data && calculatedChecksum == Sum(data[..length])
        decreases dataBuffer.BytesLeft()
      {
        assert dataBuffer.Rest() == data[length..];
        var currChar, _ := dataBuffer.ReadChar();
        assert data[..length + 1][..length] == data[..length];
        calculatedChecksum := Add(calculatedChecksum, currChar);
        length := length + 1;
      }
      assert data[..length] == data;
      SumIsTotal(data);
      packetBuffer.Advance(length);
    }

    method StorePacketHeaderByte()
      requires Valid() && packetBuffer.cur == packetBuffer.start
      modifies packetBuffer`cur, packetBuffer.mem
      ensures Valid() && packetBuffer.mem == old(packetBuffer.mem) && packetBuffer.cur == dataBuffer.start
      ensures packetBuffer.mem[..] == Patch(old(packetBuffer.mem[..]), packetBuffer.start, [DOLLAR])
    {
      hide Patch, Put;
      var _ := packetBuffer.WriteChar(DOLLAR);
    }

    method StorePacketChecksum()
      requires Valid() && packetBuffer.cur == dataBuffer.end
      modifies packetBuffer`cur, packetBuffer.mem
      ensures Valid() && packetBuffer.mem == old(packetBuffer.mem) && packetBuffer.cur == dataBuffer.end + 3
      ensures packetBuffer.mem[..] == Patch(Patch(old(packetBuffer.mem[..]), dataBuffer.end, [HASH]),
                                            dataBuffer.end + 1, ByteAsHex(calculatedChecksum))
    {
      hide Put, ByteAsHex;
      var _ := packetBuffer.WriteChar(HASH);
      var _ := packetBuffer.WriteByteAsHex(calculatedChecksum);
    }

    method CompletePacket()
      requires Valid() && packetBuffer.cur == packetBuffer.start
      modifies this`calculatedChecksum, dataBuffer`cur, packetBuffer`cur, packetBuffer`end, packetBuffer.mem
      ensures Valid() && packetBuffer.cur == packetBuffer.end == dataBuffer.end + 3
      ensures Wire() == FrameText(old(Data())) && Data() == old(Data())
      ensures packetBuffer.mem[..packetBuffer.start] == old(packetBuffer.mem[..packetBuffer.start])
      ensures packetBuffer.mem[packetBuffer.end..] == old(packetBuffer.mem[dataBuffer.end + 3..])
    {
      hide Sum, Patch, ByteAsHex, FrameText;
      ghost var m0, s, e := packetBuffer.mem[..], packetBuffer.start, dataBuffer.end;
      dataBuffer.Reset();
      calculatedChecksum := 0;
      StorePacketHeaderByte();
      ghost var m1 := packetBuffer.mem[..];
      HeaderKeepsData(m0, s, e);
      assert Data() == m1[s + 1..e];
      ProcessPacketData();
      assert packetBuffer.mem[..] == m1;
      StorePacketChecksum();
      ghost var m3 := packetBuffer.mem[..];
      BuiltInPlace(m0, s, e, calculatedChecksum);
      packetBuffer.SetEndOfBuffer();
      assert Wire() == m3[s..e + 3] && Data() == m3[s + 1..e];
      assert packetBuffer.mem[..s] == m3[..s] && packetBuffer.mem[e + 3..] == m3[e + 3..];
    }

    method SendPacket(link: Link)
      requires packetBuffer.Valid()
      modifies packetBuffer`cur, link`sent
      ensures packetBuffer.Valid() && link.sent == old(link.sent) + Wire() && Wire() == old(Wire())
    {
      packetBuffer.Reset();
      link.SendBuffer(packetBuffer);
    }

    /** Skips control-Cs, flagging them; not ok means no further character will come. */
    method ReceiveCharAfterSkippingControlC(link: Link) returns (ok: bool, c: byte, ghost skipped: seq<byte>)
      requires link.Valid()
      modifies this`lastChar, link`pos, link`controlCEncountered
      ensures link.Valid() && link.pos >= old(link.pos) && (ok ==> c == lastChar)
      ensures Chars(link.script[old(link.pos)..link.pos]) == skipped + if ok then [c] else []
      ensures forall x :: x in skipped ==> x == CONTROL_C
      ensures if ok then c != CONTROL_C else link.pos == |link.script|
      ensures link.controlCEncountered == (old(link.controlCEncountered) || skipped != [])
    {
      skipped := [];
      ok, c := GetNextCharFromGdb(link);
      while ok && c == CONTROL_C
        invariant link.Valid() && link.pos >= old(link.pos)
        invariant if ok then c == lastChar else link.pos == |link.script|
        invariant Chars(link.script[old(link.pos)..link.pos]) == skipped + if ok then [c] else []
        invariant forall x :: x in skipped ==> x == CONTROL_C
        invariant link.controlCEncountered == (old(link.controlCEncountered) || skipped != [])
        decreases |link.script| - link.pos, ok
      {
        link.controlCEncountered := true;
        skipped := skipped + [c];
        ghost var before := Chars(link.script[old(link.pos)..link.pos]);
        ok, c := GetNextCharFromGdb(link);
        assert Chars(link.script[old(link.pos)..link.pos]) == before + if ok then [c] else [];
      }
    }

    /** One transmission and the reply to it. */
    method SendAndAwaitReply(link: Link) returns (ok: bool, c: byte, ghost skipped: seq<byte>)
      requires packetBuffer.Valid() && link.Valid()
      modifies this`lastChar, packetBuffer`cur, link`pos, link`sent, link`controlCEncountered
      ensures packetBuffer.Valid() && link.Valid() && old(link.pos) <= link.pos && (ok ==> c == lastChar)
      ensures link.sent == old(link.sent) + Wire() && Wire() == old(Wire())
      ensures Chars(link.script[old(link.pos)..link.pos]) == skipped + if ok then [c] else []
      ensures forall x :: x in skipped ==> x == CONTROL_C
      ensures if ok then c != CONTROL_C else link.pos == |link.script|
      ensures link.controlCEncountered == (old(link.controlCEncountered) || skipped != [])
    {
      SendPacket(link);
      ok, c, skipped := ReceiveCharAfterSkippingControlC(link);
    }

    /** Packet_SendToGDB: the same frame again for every reply that is neither '+' nor '$'. The
        replies read are those refused and, when done, the one that ended the send. */
    method SendToGDB(link: Link) returns (done: bool, ghost refused: seq<byte>)
      requires Valid() && link.Valid()
      modifies this, dataBuffer`cur, packetBuffer`cur, packetBuffer`end, packetBuffer.mem,
               link`pos, link`sent, link`controlCEncountered
      ensures Valid() && link.Valid() && Data() == old(Data()) && old(link.pos) <= link.pos
      ensures Chars(link.script[old(link.pos)..link.pos]) == refused + if done then [lastChar] else []
      ensures NoneEnds(refused)
      ensures if done then lastChar == '+' as int || lastChar == '$' as int else link.pos == |link.script|
      ensures link.sent == old(link.sent) + Repeat(FrameText(old(Data())), 1 + Retries(refused))
      ensures link.controlCEncountered == (old(link.controlCEncountered) || CONTROL_C in refused)
      ensures packetBuffer.mem[..packetBuffer.start] == old(packetBuffer.mem[..packetBuffer.start])
      ensures packetBuffer.mem[dataBuffer.end + 3..] == old(packetBuffer.mem[dataBuffer.end + 3..])
      ensures forall e: nat :: IsFirstEnd(link.script, old(link.pos), e) ==>
                done && link.pos == e + 1 && lastChar == link.script[e].ch &&
                Retries(refused) + multiset(refused)[0x03] == e - old(link.pos) &&
                ((forall m :: old(link.pos) <= m < e ==> link.script[m].ch != 0x03) ==>
                   link.sent == old(link.sent) + Repeat(FrameText(old(Data())), e - old(link.pos) + 1))
    {
      hide FrameText, Repeat, Retries, Chars, NoneEnds, IsFirstEnd;
      InitPacketStructure();
      CompletePacket();
      done, refused := Retransmit(link);
      forall e: nat | IsFirstEnd(link.script, old(link.pos), e)
        ensures done && link.pos == e + 1 && lastChar == link.script[e].ch
        ensures Retries(refused) + multiset(refused)[0x03] == e - old(link.pos)
        ensures (forall m :: old(link.pos) <= m < e ==> link.script[m].ch != 0x03) ==>
                  Retries(refused) == e - old(link.pos)
      {
        EndsAtFirst(link.script, old(link.pos), link.pos, refused, done, lastChar, e);
      }
    }

    /** The loop of Packet_SendToGDB, on the completed packet. */
    method Retransmit(link: Link) returns (done: bool, ghost refused: seq<byte>)
      requires packetBuffer.Valid() && link.Valid()
      modifies this`lastChar, packetBuffer`cur, link`pos, link`sent, link`controlCEncountered
      ensures packetBuffer.Valid() && link.Valid() && old(link.pos) <= link.pos
      ensures Chars(link.script[old(link.pos)..link.pos]) == refused + if done then [lastChar] else []
      ensures NoneEnds(refused)
      ensures if done then lastChar == '+' as int || lastChar == '$' as int else link.pos == |link.script|
      ensures link.sent == old(link.sent) + Repeat(old(Wire()), 1 + Retries(refused))
      ensures link.controlCEncountered == (old(link.controlCEncountered) || CONTROL_C in refused)
    {
      hide Repeat, Retries, Chars, Wire;
      ghost var frame, script, start, before := Wire(), link.script, link.pos, link.sent;
      refused := [];
      RepeatNothing(frame, link.sent);
      CharsOfNothing(script, start);
      while true
        invariant packetBuffer.Valid() && link.Valid() && link.pos >= start && Wire() == frame
        invariant refused == Chars(script[start..link.pos]) && NoneEnds(refused)
        invariant link.sent == before + Repeat(frame, Retries(refused))
        invariant link.controlCEncountered == (old(link.controlCEncountered) || CONTROL_C in refused)
        decreases |script| - link.pos
      {
        ghost var from := link.pos;
        var charFromGdb;
        ghost var skipped;
        done, charFromGdb, skipped := SendAndAwaitReply(link);
        Round(script, start, from, link.pos, refused, skipped, if done then [charFromGdb] else [], before, frame);
        refused := refused + skipped;
        if !done || charFromGdb == PLUS || charFromGdb == DOLLAR {
          break;
        }
        refused := refused + [charFromGdb];
      }
    }
  }

  /** The bookkeeping of one transmission: replies read, copies sent, control-Cs seen. */
  lemma Round(script: seq<Arrival>, start: nat, from: nat, pos: nat, refused: seq<byte>, skipped: seq<byte>,
              last: seq<byte>, before: seq<byte>, frame: seq<byte>)
    requires start <= from <= pos <= |script| && |last| <= 1 && CONTROL_C !in last
    requires refused == Chars(script[start..from]) && Chars(script[from..pos]) == skipped + last
    requires forall x :: x in skipped ==> x == CONTROL_C
    ensures Chars(script[start..pos]) == refused + skipped + last
    ensures before + Repeat(frame, Retries(refused)) + frame == before + Repeat(frame, 1 + Retries(refused + skipped))
    ensures last != [] ==> Retries(refused + skipped + last) == 1 + Retries(refused + skipped)
    ensures CONTROL_C in refused + skipped <==> CONTROL_C in refused || skipped != []
  {
    hide Repeat, Retries, Chars;
    CharsJoin(script, start, from, pos);
    assert refused + (skipped + last) == refused + skipped + last;
    assert skipped != [] ==> skipped[0] in skipped;
    SkippedAreFree(refused, skipped);
    RepeatOnce(frame, Retries(refused));
    if last != [] {
      assert last == [last[0]];
      RetryOnce(refused + skipped, last[0]);
    }
  }

  /** What the payload of a session that began hunting is. */
  lemma Genuine(capacity: nat, script: seq<Arrival>, i: nat)
    requires i <= |script| && Receive(capacity, Hunting, script, i).Accepted?
    ensures var s := Receive(capacity, Hunting, script, i);
            EndsInFrameFor(Chars(script[i..s.pos]), s.payload)
  {
    hide EndsInFrame, Receive;
    assert Chars(script[i..i]) == [];
    RunEmpty(capacity, Hunting);
    var raw, hi, lo := AcceptedIsGenuine(capacity, script, i, i, Hunting);
  }

  function Prepend(answers: seq<byte>, s: Session): Session {
    s.(sent := answers + s.sent)
  }

  lemma OpenedZero()
    ensures Opened(0) == Hunting
  {
  }

  lemma PrependNothing(s: Session)
    ensures Prepend([], s) == s
  {
    assert [] + s.sent == s.sent;
  }

  lemma PrependAnswer(answers: seq<byte>, answer: byte, s: Session)
    ensures Prepend(answers, Answered(answer, s)) == Prepend(answers + [answer], s)
  {
    assert answers + ([answer] + s.sent) == answers + [answer] + s.sent;
  }

  lemma CharsOfNothing(script: seq<Arrival>, i: nat)
    requires i <= |script|
    ensures Chars(script[i..i]) == []
  {
  }

  lemma CharsJoin(script: seq<Arrival>, i: nat, j: nat, k: nat)
    requires i <= j <= k <= |script|
    ensures Chars(script[i..k]) == Chars(script[i..j]) + Chars(script[j..k])
  {
  }

  lemma RepeatNothing(frame: seq<byte>, sent: seq<byte>)
    ensures sent + Repeat(frame, Retries([])) == sent
  {
  }

  lemma RepeatOnce(frame: seq<byte>, copies: nat)
    ensures forall sent: seq<byte> {:trigger sent + Repeat(frame, copies)} ::
              sent + Repeat(frame, copies) + frame == sent + Repeat(frame, copies + 1)
  {
    forall sent: seq<byte>
      ensures sent + Repeat(frame, copies) + frame == sent + Repeat(frame, copies + 1)
    {
      assert sent + Repeat(frame, copies) + frame == sent + (Repeat(frame, copies) + frame);
    }
  }

  lemma {:induction false} SkippedAreFree(refused: seq<byte>, skipped: seq<byte>)
    requires forall x :: x in skipped ==> x == CONTROL_C
    ensures Retries(refused + skipped) == Retries(refused)
  {
    if skipped == [] {
      assert refused + skipped == refused;
    } else {
      var n := |skipped| - 1;
      assert (refused + skipped)[..|refused| + n] == refused + skipped[..n];
      assert skipped[n] in skipped && forall x :: x in skipped[..n] ==> x in skipped;
      SkippedAreFree(refused, skipped[..n]);
    }
  }

  lemma RetryOnce(refused: seq<byte>, c: byte)
    requires c != CONTROL_C
    ensures Retries(refused + [c]) == Retries(refused) + 1
  {
    assert (refused + [c])[..|refused|] == refused;
  }

  lemma HeaderKeepsData(m0: seq<byte>, start: nat, end: nat)
    requires start < end <= |m0|
    ensures Patch(m0, start, [DOLLAR])[start + 1..end] == m0[start + 1..end]
  {
  }

  /** Storing the header and the trailer around the data leaves a whole frame, and nothing else
      in the array moves. */
  lemma BuiltInPlace(m0: seq<byte>, start: nat, end: nat, sum: byte)
    requires start < end && end + 3 <= |m0| && sum == Sum(m0[start + 1..end])
    ensures var m := Patch(Patch(Patch(m0, start, [DOLLAR]), end, [HASH]), end + 1, ByteAsHex(sum));
            m[start..end + 3] == FrameText(m0[start + 1..end]) && m[start + 1..end] == m0[start + 1..end] &&
            m[..start] == m0[..start] && m[end + 3..] == m0[end + 3..]
  {
    var data, hex := m0[start + 1..end], ByteAsHex(sum);
    hide Sum, ByteAsHex;
    var p := Patch(m0, start, [DOLLAR]);
    assert p[..end] == m0[..start] + [DOLLAR] + data && p[end + 1..] == m0[end + 1..];
    var q := Patch(p, end, [HASH]);
    assert q[..end + 1] == m0[..start] + [DOLLAR] + data + [HASH] && q[end + 3..] == m0[end + 3..];
    var m := Patch(q, end + 1, hex);
    assert m == m0[..start] + FrameText(data) + m0[end + 3..];
  }
}
