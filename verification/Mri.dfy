/** The response path of mri/core/mri.c: handlers write into the initialised packet buffer and
    SendPacketToGdb transmits the whole response or the overrun error, never a part of one. */
module Mri {
  import opened Common
  import opened Hex
  import opened Buffers
  import opened PacketProtocol
  import opened PacketSessions
  import opened Packets

  /** MRI_ERROR_BUFFER_OVERRUN, "E04". */
  const BUFFER_OVERRUN_ERROR: seq<byte> := ['E' as int, '0' as int, '4' as int]

  /** MRI_ERROR_INVALID_ARGUMENT, "E01". */
  const INVALID_ARGUMENT_ERROR: seq<byte> := ['E' as int, '0' as int, '1' as int]

  /** One call of a writing function of the buffer. */
  datatype Write =
    | Char(c: byte)
    | HexByte(b: byte)
    | Chars(s: seq<byte>)
    | UInteger(value: nat)
    | Integer(signed: int)
    | HexChars(s: seq<byte>)
  {
    /** The whole text asked for. */
    function Text(): seq<byte> {
      match this
      case Char(c) => [c]
      case HexByte(b) => ByteAsHex(b)
      case Chars(s) => s
      case UInteger(value) => UIntegerAsHex(value)
      case Integer(signed) => IntegerAsHex(signed)
      case HexChars(s) => TextAsHex(s)
    }

    /** The argument is a word of w bytes. */
    predicate Fits(w: nat) {
      match this
      case UInteger(value) => value < Modulus(w)
      case Integer(signed) => -IntMax(w) - 1 <= signed <= IntMax(w)
      case _ => true
    }
  }

  /** Everything a handler wrote, in order. */
  function Written(writes: seq<Write>): seq<byte> {
    if writes == [] then [] else Written(writes[..|writes| - 1]) + writes[|writes| - 1].Text()
  }

  /** How many leading characters a hex string write still finds room for. */
  function HexRoom(v: Response, capacity: nat, s: seq<byte>): (n: nat)
    ensures n <= |s|
  {
    match v
    case Overrun => 0
    case Text(t) => if |t| + 2 * |s| <= capacity then |s| else if |t| <= capacity then (capacity - |t|) / 2 else 0
  }

  /** The buffer after one write: a hex string alone is cut to what fits instead of overrunning. */
  function PutWrite(v: Response, capacity: nat, write: Write): Response {
    match write
    case HexChars(s) => Put(v, capacity, TextAsHex(s[..HexRoom(v, capacity, s)]))
    case _ => Put(v, capacity, write.Text())
  }

  /** The buffer after a sequence of writes, one at a time. */
  function PutAll(v: Response, capacity: nat, writes: seq<Write>): Response {
    if writes == [] then v
    else PutWrite(PutAll(v, capacity, writes[..|writes| - 1]), capacity, writes[|writes| - 1])
  }

  /** What is left never exceeds the capacity, and is the full concatenation exactly when that fits. */
  lemma {:induction false} WritesAreKeptWhen(capacity: nat, writes: seq<Write>)
    ensures var v := PutAll(Response.Text([]), capacity, writes);
            (v.Text? ==> |v.text| <= capacity) &&
            (v == Response.Text(Written(writes)) <==> |Written(writes)| <= capacity)
  {
    if writes != [] {
      var n := |writes| - 1;
      WritesAreKeptWhen(capacity, writes[..n]);
      hide UIntegerAsHex, IntegerAsHex, ByteAsHex, TextAsHex;
      var before, write := PutAll(Response.Text([]), capacity, writes[..n]), writes[n];
      if write.HexChars? {
        assert write.s[..|write.s|] == write.s;
      }
    }
  }

  /** All or nothing: without hex strings, a sequence of writes leaves the full concatenation when
      that fits, and an overrun, from which no later write recovers, exactly when it does not. */
  lemma {:induction false} WritesAreAllOrNothing(capacity: nat, writes: seq<Write>)
    requires forall write :: write in writes ==> !write.HexChars?
    ensures PutAll(Response.Text([]), capacity, writes)
         == if |Written(writes)| <= capacity then Response.Text(Written(writes)) else Overrun
  {
    if writes != [] {
      WritesAreAllOrNothing(capacity, writes[..|writes| - 1]);
      assert writes[|writes| - 1] in writes;
    }
  }

  /** The text of the writes that are not hex strings. */
  function Unhexed(writes: seq<Write>): seq<byte> {
    if writes == [] then []
    else
      var write := writes[|writes| - 1];
      Unhexed(writes[..|writes| - 1]) + if write.HexChars? then [] else write.Text()
  }

  /** Whether write k is the first that does not fit whole. */
  predicate FirstTooLong(capacity: nat, writes: seq<Write>, k: nat) {
    k < |writes| && |Written(writes[..k])| <= capacity < |Written(writes[..k + 1])|
  }

  /** A response too long to fit has a first write that does not. */
  lemma {:induction false} SomeWriteIsTooLong(capacity: nat, writes: seq<Write>) returns (k: nat)
    requires |Written(writes)| > capacity
    ensures FirstTooLong(capacity, writes, k)
  {
    var n := |writes| - 1;
    assert writes[..|writes|] == writes;
    if |Written(writes[..n])| <= capacity {
      k := n;
    } else {
      k := SomeWriteIsTooLong(capacity, writes[..n]);
      assert writes[..n][..k] == writes[..k] && writes[..n][..k + 1] == writes[..k + 1];
    }
  }

  /** Exactly when a part of a response is left without an overrun: the first write that does not
      fit is a hex string, and what comes behind it fits the one character that may still be free. */
  lemma {:induction false} PartIsLeftWhen(capacity: nat, writes: seq<Write>, k: nat)
    requires FirstTooLong(capacity, writes, k)
    ensures var v, left := PutAll(Response.Text([]), capacity, writes), (capacity - |Written(writes[..k])|) % 2;
            (v.Text? <==> writes[k].HexChars? && |Unhexed(writes[k + 1..])| <= left) &&
            (v.Text? ==> |v.text| == capacity - left + |Unhexed(writes[k + 1..])|)
    decreases |writes|
  {
    hide Written, PutWrite, Unhexed;
    var n := |writes| - 1;
    assert writes[..n + 1] == writes;
    if k == n {
      WritesAreKeptWhen(capacity, writes[..n]);
      TooLongHere(capacity, writes);
      assert writes[k + 1..] == [];
      UnhexedNext([], writes[n]);
    } else {
      assert writes[..n][..k] == writes[..k] && writes[..n][..k + 1] == writes[..k + 1];
      PartIsLeftWhen(capacity, writes[..n], k);
      var behind := writes[..n][k + 1..];
      assert writes[k + 1..] == behind + [writes[n]];
      UnhexedNext(behind, writes[n]);
      WriteBehindCut(PutAll(Response.Text([]), capacity, writes[..n]), capacity, writes[n]);
    }
  }

  lemma UnhexedNext(writes: seq<Write>, write: Write)
    ensures Unhexed([]) == []
    ensures Unhexed(writes + [write]) == Unhexed(writes) + if write.HexChars? then [] else write.Text()
  {
    assert (writes + [write])[..|writes|] == writes;
  }

  /** The last write is the first too long: a hex string is cut to an even rest, all else overruns. */
  lemma TooLongHere(capacity: nat, writes: seq<Write>)
    requires writes != [] && FirstTooLong(capacity, writes, |writes| - 1)
    ensures var n := |writes| - 1;
            var text := Written(writes[..n]);
            var v := PutWrite(Response.Text(text), capacity, writes[n]);
            (v.Text? <==> writes[n].HexChars?) && (v.Text? ==> |v.text| == capacity - (capacity - |text|) % 2)
  {
    hide UIntegerAsHex, IntegerAsHex, ByteAsHex, TextAsHex;
    var n := |writes| - 1;
    assert writes[..n + 1] == writes;
    assert Written(writes) == Written(writes[..n]) + writes[n].Text();
  }

  /** In less than two characters of room a hex string leaves nothing, and anything else fits or
      overruns. */
  lemma WriteBehindCut(v: Response, capacity: nat, write: Write)
    requires v.Text? ==> capacity - 1 <= |v.text| <= capacity
    ensures var after := PutWrite(v, capacity, write);
            (after.Text? <==> v.Text? && (write.HexChars? || |v.text| + |write.Text()| <= capacity)) &&
            (after.Text? ==> |after.text| == |v.text| + if write.HexChars? then 0 else |write.Text()|)
  {
    hide UIntegerAsHex, IntegerAsHex, ByteAsHex;
  }

  /** Half of a two-character hex string in a buffer of three. */
  lemma PartIsLeft(a: byte, b: byte)
    ensures PutAll(Response.Text([]), 3, [HexChars([a, b])]) == Response.Text(ByteAsHex(a))
    ensures |Written([HexChars([a, b])])| == 4
  {
    hide ByteAsHex;
    var writes := [HexChars([a, b])];
    assert writes[..0] == [] && [a, b][..1] == [a] && [a][..0] == [];
    assert TextAsHex([a]) == [] + ByteAsHex(a) == ByteAsHex(a);
    assert [] + ByteAsHex(a) == ByteAsHex(a);
  }

  /** What goes out for a buffer: its text, or the error for an overrun. Only a data area too
      small for the three characters of the error is sent as it stands. */
  function Payload(v: Response, capacity: nat, area: seq<byte>): seq<byte> {
    match v
    case Text(t) => t
    case Overrun => if |BUFFER_OVERRUN_ERROR| <= capacity then BUFFER_OVERRUN_ERROR else area
  }

  class MriCore {
    const packet: Packet
    const platformBuffer: array<byte>

    /** The packet lies in the platform's buffer; size - 4 characters of data fit. */
    ghost predicate Valid()
      reads packet.packetBuffer, packet.dataBuffer
    {
      packet.Valid() && platformBuffer.Length >= 4 && packet.dataBuffer.mem == platformBuffer &&
      packet.dataBuffer.start == 1 && packet.dataBuffer.end <= platformBuffer.Length - 3
    }

    /** After InitPacketBuffers the data buffer has its full capacity. */
    ghost predicate Initialised()
      reads packet.packetBuffer, packet.dataBuffer
    {
      Valid() && packet.dataBuffer.end == platformBuffer.Length - 3
    }

    constructor (platformBuffer: array<byte>)
      requires platformBuffer.Length >= 4
      ensures Initialised() && this.platformBuffer == platformBuffer && fresh(packet)
      ensures fresh(packet.dataBuffer) && fresh(packet.packetBuffer)
    {
      this.platformBuffer := platformBuffer;
      packet := new Packet(platformBuffer, 0, platformBuffer.Length);
    }

    method InitPacketBuffers()
      requires Valid()
      modifies packet.packetBuffer, packet.dataBuffer
      ensures Initialised() && packet.dataBuffer.View() == Response.Text([])
      ensures packet.dataBuffer.Capacity() == platformBuffer.Length - 4
    {
      packet.Init(platformBuffer, 0, platformBuffer.Length);
    }

    /** The exception code it leaves is that of its own write, whatever was raised before. */
    method PrepareStringResponse(response: seq<byte>) returns (exc: Exception)
      requires Valid()
      modifies packet.packetBuffer, packet.dataBuffer, platformBuffer
      ensures Initialised()
      ensures packet.dataBuffer.View() == Put(Response.Text([]), platformBuffer.Length - 4, response)
      ensures exc == NoException <==> |response| <= platformBuffer.Length - 4
      ensures |response| <= platformBuffer.Length - 4 ==>
                platformBuffer[1 + |response|..] == old(platformBuffer[1 + |response|..])
    {
      InitPacketBuffers();
      exc := packet.dataBuffer.WriteSizedString(response);
      assert |response| <= platformBuffer.Length - 4 ==>
               platformBuffer[1 + |response|..] == platformBuffer[..][1 + |response|..];
    }

    /** One handler write. */
    method Perform(write: Write, w: nat)
      requires Initialised() && w >= 1 && write.Fits(w)
      modifies packet.dataBuffer`cur, platformBuffer
      ensures Initialised()
      ensures packet.dataBuffer.View() == PutWrite(old(packet.dataBuffer.View()), platformBuffer.Length - 4, write)
    {
      hide Put, UIntegerAsHex, Modulus, IntMax, ByteAsHex, TextAsHex, Buffer.Wrote;
      match write
      case Char(c) => var _ := packet.dataBuffer.WriteChar(c);
      case HexByte(b) => var _ := packet.dataBuffer.WriteByteAsHex(b);
      case Chars(s) => var _ := packet.dataBuffer.WriteSizedString(s);
      case UInteger(value) => var _ := packet.dataBuffer.WriteUIntegerAsHex(value, w);
      case Integer(signed) => var _ := packet.dataBuffer.WriteIntegerAsHex(signed, w);
      case HexChars(s) => var n := packet.dataBuffer.WriteSizedStringAsHex(s);
    }

    method SendPacketToGdb(link: Link) returns (done: bool, ghost refused: seq<byte>)
      requires Valid() && link.Valid()
      modifies packet, packet.packetBuffer, packet.dataBuffer, platformBuffer,
               link`pos, link`sent, link`controlCEncountered
      ensures Valid() && link.Valid() && old(link.pos) <= link.pos
      ensures PacketSessions.Chars(link.script[old(link.pos)..link.pos])
           == refused + if done then [packet.lastChar] else []
      ensures NoneEnds(refused)
      ensures if done then packet.lastChar == '+' as int || packet.lastChar == '$' as int else link.pos == |link.script|
      ensures var payload := Payload(old(packet.dataBuffer.View()), platformBuffer.Length - 4,
                                     old(platformBuffer[1..platformBuffer.Length - 3]));
              link.sent == old(link.sent) + Repeat(FrameText(payload), 1 + Retries(refused))
    {
      hide FrameText, Repeat, Retries, PacketSessions.Chars, Patch;
      ghost var v, capacity, area := packet.dataBuffer.View(), platformBuffer.Length - 4, platformBuffer[1..platformBuffer.Length - 3];
      if packet.dataBuffer.OverrunDetected() {
        InitPacketBuffers();
        var _ := packet.dataBuffer.WriteSizedString(BUFFER_OVERRUN_ERROR);
        assert |BUFFER_OVERRUN_ERROR| <= capacity ==> packet.dataBuffer.View() == Response.Text(BUFFER_OVERRUN_ERROR);
        assert |BUFFER_OVERRUN_ERROR| > capacity ==> platformBuffer[..] == old(platformBuffer[..]);
        assert platformBuffer[1..platformBuffer.Length - 3] == platformBuffer[..][1..platformBuffer.Length - 3];
        assert area == old(platformBuffer[..])[1..platformBuffer.Length - 3];
      }
      ghost var text := packet.dataBuffer.View();
      packet.dataBuffer.SetEndOfBuffer();
      assert text.Text? ==> packet.Data() == text.text;
      assert packet.Data() == Payload(v, capacity, area);
      done, refused := packet.SendToGDB(link);
    }

    /** Any handler: it starts from the initialised buffer, writes, and its response is sent. The
        transmission is the full concatenation of its writes if that fits; otherwise it is the
        overrun error, unless the cut of a hex string has left a part without an overrun. */
    method Respond(writes: seq<Write>, w: nat, link: Link) returns (done: bool, ghost refused: seq<byte>)
      requires Valid() && link.Valid() && w >= 1
      requires platformBuffer.Length - 4 >= |BUFFER_OVERRUN_ERROR|
      requires forall write :: write in writes ==> write.Fits(w)
      modifies packet, packet.packetBuffer, packet.dataBuffer, platformBuffer,
               link`pos, link`sent, link`controlCEncountered
      ensures Valid() && link.Valid()
      ensures var capacity := platformBuffer.Length - 4;
              var v := PutAll(Response.Text([]), capacity, writes);
              var payload := if |Written(writes)| <= capacity then Written(writes)
                             else if v.Text? then v.text
                             else ['E' as int, '0' as int, '4' as int];
              link.sent == old(link.sent) + Repeat(FrameText(payload), 1 + Retries(refused))
      ensures var capacity := platformBuffer.Length - 4;
              (forall write :: write in writes ==> !write.HexChars?) ==>
                var payload := if |Written(writes)| <= capacity then Written(writes)
                               else ['E' as int, '0' as int, '4' as int];
                link.sent == old(link.sent) + Repeat(FrameText(payload), 1 + Retries(refused))
    {
      hide FrameText, Repeat, Retries, PacketSessions.Chars, PutWrite, Written;
      ghost var capacity := platformBuffer.Length - 4;
      InitPacketBuffers();
      var i := 0;
      assert writes[..0] == [];
      while i < |writes|
        invariant 0 <= i <= |writes| && Initialised()
        invariant packet.dataBuffer.View() == PutAll(Response.Text([]), capacity, writes[..i])
        invariant link.Valid() && link.sent == old(link.sent)
      {
        assert writes[..i + 1][..i] == writes[..i];
        Perform(writes[i], w);
        i := i + 1;
      }
      assert writes[..i] == writes;
      WritesAreKeptWhen(capacity, writes);
      if forall write :: write in writes ==> !write.HexChars? {
        WritesAreAllOrNothing(capacity, writes);
      }
      done, refused := SendPacketToGdb(link);
    }

    /** getPacketFromGDB: the buffers are initialised and the next packet received. */
    method GetPacketFromGDB(link: Link) returns (done: bool)
      requires Valid() && link.Valid()
      modifies packet, packet.packetBuffer, packet.dataBuffer, platformBuffer, link`pos, link`sent
      ensures Valid() && link.Valid()
      ensures var session := Receive(platformBuffer.Length - 4, Hunting, link.script, old(link.pos));
              link.sent == old(link.sent) + session.sent && done == session.Accepted? &&
              (done ==> packet.dataBuffer.Rest() == session.payload && link.pos == session.pos)
    {
      InitPacketBuffers();
      done := packet.GetFromGDB(link);
      assert done ==> |packet.dataBuffer.Rest()| == packet.dataBuffer.end - packet.dataBuffer.cur;
    }

    /** One round of the command loop from the response on: it is sent, and the next command is
        received from where the send stopped reading, at. A frame p arriving there is received after
        a '+'; after a '$', which was the frame's own first character, it is not: the receive goes
        exactly as if it began behind the frame. */
    method SendThenReceive(link: Link, ghost p: seq<byte>) returns (ended: bool, at: nat, done: bool)
      requires Valid() && link.Valid()
      modifies packet, packet.packetBuffer, packet.dataBuffer, platformBuffer,
               link`pos, link`sent, link`controlCEncountered
      ensures Valid() && link.Valid() && old(link.pos) <= at <= |link.script|
      ensures ended ==> old(link.pos) < at && (link.script[at - 1].ch == '+' as int || link.script[at - 1].ch == '$' as int)
      ensures !ended ==> at == |link.script| && !done
      ensures ended && link.script[at - 1].ch == '+' as int && |p| <= platformBuffer.Length - 4 &&
              Carries(link.script, at, Encode(p)) && !HasReceiveData(link.script, at + |Encode(p)|) ==>
                done && packet.dataBuffer.Rest() == p && link.pos == at + |Encode(p)|
      ensures ended && link.script[at - 1].ch == '$' as int && Carries(link.script, at - 1, Encode(p)) ==>
                var behind := at - 1 + |Encode(p)|;
                var session := Receive(platformBuffer.Length - 4, Hunting, link.script, behind);
                done == session.Accepted? &&
                (done ==> link.pos == session.pos > behind && packet.dataBuffer.Rest() == session.payload)
    {
      hide Receive, Encode, Repeat, FrameText, Retries, Carries, NextFrame;
      ghost var refused;
      ended, refused := SendPacketToGdb(link);
      at := link.pos;
      if !ended {
        return ended, at, false;
      }
      LastRead(link.script, old(link.pos), at, refused, packet.lastChar);
      done := GetPacketFromGDB(link);
      ghost var capacity := platformBuffer.Length - 4;
      if |p| <= capacity && Carries(link.script, at, Encode(p)) && !HasReceiveData(link.script, at + |Encode(p)|) {
        GoodFrameIsAccepted(capacity, Hunting, link.script, at, p);
      }
      if link.script[at - 1].ch == '$' as int && Carries(link.script, at - 1, Encode(p)) {
        CarriesFits(link.script, at - 1, Encode(p));
        CancellingFrameIsSkipped(capacity, link.script, at - 1, p);
      }
    }
  }

  lemma LastRead(script: seq<Arrival>, i: nat, j: nat, refused: seq<byte>, c: byte)
    requires i <= j <= |script| && PacketSessions.Chars(script[i..j]) == refused + [c]
    ensures i < j && script[j - 1].ch == c
  {
    assert PacketSessions.Chars(script[i..j])[j - i - 1] == script[j - 1].ch;
  }

  lemma CarriesFits(script: seq<Arrival>, i: nat, text: seq<byte>)
    requires Carries(script, i, text)
    ensures i + |text| <= |script|
  {
  }
}
