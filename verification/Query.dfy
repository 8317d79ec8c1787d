/** The query commands of mri/core/cmd_query.c whose meaning spans many packets: the chunked
    transfer of an annex and the resumable thread list. */
module Query {
  import opened Common
  import opened Hex
  import opened Buffers
  import opened PacketProtocol
  import opened PacketSessions
  import opened Packets
  import opened Mri

  const MORE: byte := 'm' as int
  const LAST: byte := 'l' as int
  const COMMA: byte := ',' as int

  // ---------------------------------------------------------------- qXfer

  /** The reply to one read request, for a data buffer of the given capacity. */
  function TransferReply(annex: seq<byte>, offset: nat, length: nat, capacity: nat): Response {
    if offset >= |annex| then Put(Response.Text([]), capacity, [LAST])
    else
      var clipped := if length > capacity then capacity else length;
      if clipped > |annex| - offset
      then Put(Response.Text([]), capacity, [LAST] + annex[offset..])
      else Put(Response.Text([]), capacity, [MORE] + annex[offset..offset + clipped])
  }

  /** Exactly which requests overrun the buffer: those for at least a whole buffer of an annex
      that still has that much to give. */
  lemma TransferOverrunsWhen(annex: seq<byte>, offset: nat, length: nat, capacity: nat)
    ensures TransferReply(annex, offset, length, capacity) == Overrun
       <==> capacity == 0 || (length >= capacity && |annex| - offset >= capacity)
  {
  }

  method HandleQueryTransferRead(mri: MriCore, annex: seq<byte>, offset: nat, length: nat)
    requires mri.Valid()
    modifies mri.packet.packetBuffer, mri.packet.dataBuffer, mri.platformBuffer
    ensures mri.Initialised()
    ensures mri.packet.dataBuffer.View()
         == TransferReply(annex, offset, length, mri.platformBuffer.Length - 4)
  {
    hide Buffer.Wrote, Put;
    var dataPrefixChar := MORE;
    var count := length;
    var validMemoryMapBytes := 0;
    if offset >= |annex| {
      dataPrefixChar := LAST;
      count := 0;
    } else {
      validMemoryMapBytes := |annex| - offset;
    }
    mri.InitPacketBuffers();
    var buffer := mri.packet.dataBuffer;
    var outputBufferSize := buffer.BytesLeft();
    if count > outputBufferSize {
      count := outputBufferSize;
    }
    if count > validMemoryMapBytes {
      dataPrefixChar := LAST;
      count := validMemoryMapBytes;
    }
    var chunk := if offset >= |annex| then [] else annex[offset..offset + count];
    ghost var capacity := mri.platformBuffer.Length - 4;
    PutConcat(Response.Text([]), capacity, [dataPrefixChar], chunk);
    assert [LAST] + [] == [LAST];
    assert offset < |annex| && dataPrefixChar == LAST ==> chunk == annex[offset..];
    var _ := buffer.WriteChar(dataPrefixChar);
    var _ := buffer.WriteSizedString(chunk);
  }

  /** A reader that asks for one length after another, advancing by what each reply carried and
      stopping at the reply marked last: what it collects, and whether it saw the end. */
  function Collect(annex: seq<byte>, requests: seq<nat>, capacity: nat, offset: nat): (seq<byte>, bool) {
    if requests == [] then ([], false)
    else
      match TransferReply(annex, offset, requests[0], capacity)
      case Overrun => ([], false)
      case Text(t) =>
        if t == [] then ([], false)
        else if t[0] == LAST then (t[1..], true)
        else
          var (rest, done) := Collect(annex, requests[1..], capacity, offset + |t| - 1);
          (t[1..] + rest, done)
  }

  /** Whatever positive lengths below the capacity are asked for, one request more than there are
      bytes is always enough, and exactly the annex is obtained. */
  lemma {:induction false} TransferReassembles(annex: seq<byte>, requests: seq<nat>, capacity: nat, offset: nat)
    requires offset <= |annex| < offset + |requests|
    requires forall k :: 0 <= k < |requests| ==> 0 < requests[k] < capacity
    ensures Collect(annex, requests, capacity, offset) == (annex[offset..], true)
    decreases |requests|
  {
    hide TransferReply;
    var n := requests[0];
    ReplyThatFits(annex, offset, n, capacity);
    if offset < |annex| && n <= |annex| - offset {
      TransferReassembles(annex, requests[1..], capacity, offset + n);
      assert annex[offset..] == annex[offset..offset + n] + annex[offset + n..];
      CollectMore(annex, requests, capacity, offset);
    }
  }

  /** Every request that does not overrun is answered in full, or with the rest marked last when it
      asks for more than there is. */
  lemma ReplyThatFits(annex: seq<byte>, offset: nat, n: nat, capacity: nat)
    requires offset <= |annex| && capacity > 0 && (n < capacity || |annex| - offset < capacity)
    ensures var reply := TransferReply(annex, offset, n, capacity);
            var whole := offset < |annex| && n <= |annex| - offset;
            var chunk := if whole then annex[offset..offset + n] else annex[offset..];
            reply == Response.Text([if whole then 'm' as int else 'l' as int] + chunk) && reply.text[1..] == chunk
  {
    var whole := offset < |annex| && n <= |annex| - offset;
    var chunk := if whole then annex[offset..offset + n] else annex[offset..];
    var text := [if whole then MORE else LAST] + chunk;
    assert [] + text == text;
    assert offset == |annex| ==> [LAST] + chunk == [LAST];
  }

  /** However few the requests, what was collected is what comes next in the annex. */
  lemma {:induction false} TransferIsPrefix(annex: seq<byte>, requests: seq<nat>, capacity: nat, offset: nat)
    requires offset <= |annex|
    ensures Collect(annex, requests, capacity, offset).0 <= annex[offset..]
    ensures Collect(annex, requests, capacity, offset).1 ==> Collect(annex, requests, capacity, offset).0 == annex[offset..]
    decreases |requests|
  {
    if requests != [] {
      hide TransferReply, Put;
      var reply := TransferReply(annex, offset, requests[0], capacity);
      ReplyShape(annex, offset, requests[0], capacity);
      if reply.Text? && reply.text[0] == MORE {
        var n := |reply.text| - 1;
        TransferIsPrefix(annex, requests[1..], capacity, offset + n);
        CollectMore(annex, requests, capacity, offset);
        PrefixExtends(annex[offset..offset + n], Collect(annex, requests[1..], capacity, offset + n).0, annex[offset + n..]);
        assert annex[offset..] == annex[offset..offset + n] + annex[offset + n..];
      }
    }
  }

  lemma CollectMore(annex: seq<byte>, requests: seq<nat>, capacity: nat, offset: nat)
    requires requests != []
    requires var reply := TransferReply(annex, offset, requests[0], capacity);
             reply.Text? && reply.text != [] && reply.text[0] == MORE
    ensures var t := TransferReply(annex, offset, requests[0], capacity).text;
            var (rest, done) := Collect(annex, requests[1..], capacity, offset + |t| - 1);
            Collect(annex, requests, capacity, offset) == (t[1..] + rest, done)
  {
    hide TransferReply;
  }

  lemma PrefixExtends(a: seq<byte>, b: seq<byte>, c: seq<byte>)
    requires b <= c
    ensures a + b <= a + c
  {
  }

  lemma ReplyShape(annex: seq<byte>, offset: nat, length: nat, capacity: nat)
    requires offset <= |annex|
    ensures var reply := TransferReply(annex, offset, length, capacity);
            reply.Text? ==>
              reply.text != [] && offset + |reply.text| - 1 <= |annex| &&
              reply.text[1..] == annex[offset..offset + |reply.text| - 1] &&
              reply.text[0] in {MORE, LAST} && (reply.text[0] == LAST ==> reply.text[1..] == annex[offset..])
  {
  }

  // ---------------------------------------------------------------- the transfer over the link

  /** Whether every reply of a session arrives as it was sent, at a receiver with the given room. */
  function AllIntact(annex: seq<byte>, requests: seq<nat>, capacity: nat, room: nat, offset: nat): bool {
    requests == [] ||
    match TransferReply(annex, offset, requests[0], capacity)
    case Overrun => true
    case Text(t) =>
      Delivered(room, t) == Some(t) &&
      (t == [] || t[0] == LAST || AllIntact(annex, requests[1..], capacity, room, offset + |t| - 1))
  }

  /** The reader of Collect behind the link: it sees what is delivered of each reply. */
  function CollectOverLink(annex: seq<byte>, requests: seq<nat>, capacity: nat, room: nat, offset: nat): (seq<byte>, bool) {
    if requests == [] then ([], false)
    else
      match TransferReply(annex, offset, requests[0], capacity)
      case Overrun => ([], false)
      case Text(t) =>
        match Delivered(room, t)
        case None => ([], false)
        case Some(u) =>
          if u == [] then ([], false)
          else if u[0] == LAST then (u[1..], true)
          else
            var (rest, done) := CollectOverLink(annex, requests[1..], capacity, room, offset + |u| - 1);
            (u[1..] + rest, done)
  }

  predicate IsPlain(s: seq<byte>) {
    forall c :: c in s ==> !IsSpecial(c)
  }

  /** The same sessions over the link: every reply arrives as sent if and only if none of '$', '#'
      and '}' is left in the annex, and then exactly the annex is obtained. */
  lemma {:induction false} TransferOverLink(annex: seq<byte>, requests: seq<nat>, capacity: nat, room: nat, offset: nat)
    requires offset <= |annex| < offset + |requests| && capacity <= room
    requires forall k :: 0 <= k < |requests| ==> 0 < requests[k] < capacity
    ensures AllIntact(annex, requests, capacity, room, offset) <==> IsPlain(annex[offset..])
    ensures IsPlain(annex[offset..]) ==>
              CollectOverLink(annex, requests, capacity, room, offset) == (annex[offset..], true)
    decreases |requests|
  {
    hide TransferReply, Delivered, IsPlain, AllIntact, CollectOverLink;
    var n := requests[0];
    ReplyThatFits(annex, offset, n, capacity);
    var t := TransferReply(annex, offset, n, capacity).text;
    DeliveredWhenPlain(room, t);
    if IsPlain(t) {
      CollectOneOverLink(annex, requests, capacity, room, offset, t, t);
    }
    AllIntactOne(annex, requests, capacity, room, offset, t);
    if t[0] == MORE {
      TransferOverLink(annex, requests[1..], capacity, room, offset + n);
      assert annex[offset..] == annex[offset..offset + n] + annex[offset + n..];
      PlainConcat(annex[offset..offset + n], annex[offset + n..]);
    }
  }

  lemma PlainConcat(a: seq<byte>, b: seq<byte>)
    ensures IsPlain(a + b) <==> IsPlain(a) && IsPlain(b)
  {
    hide IsSpecial;
    assert forall c :: c in a + b <==> c in a || c in b;
  }

  /** A reply is delivered as sent exactly when its chunk is plain. */
  lemma DeliveredWhenPlain(room: nat, t: seq<byte>)
    requires |t| <= room && t != [] && t[0] in {MORE, LAST}
    ensures IsPlain(t) <==> IsPlain(t[1..])
    ensures Delivered(room, t) == Some(t) <==> IsPlain(t)
    ensures MORE != LAST
  {
    UnescapedFrameDecodes(room, t);
    PlainMarks();
    hide IsSpecial;
    assert t == [t[0]] + t[1..];
    PlainConcat([t[0]], t[1..]);
  }

  lemma PlainMarks()
    ensures IsPlain([MORE]) && IsPlain([LAST]) && MORE != LAST
  {
  }

  lemma AllIntactOne(annex: seq<byte>, requests: seq<nat>, capacity: nat, room: nat, offset: nat, t: seq<byte>)
    requires requests != [] && TransferReply(annex, offset, requests[0], capacity) == Response.Text(t) && t != []
    ensures AllIntact(annex, requests, capacity, room, offset)
         == (Delivered(room, t) == Some(t) &&
             (t[0] == LAST || AllIntact(annex, requests[1..], capacity, room, offset + |t| - 1)))
  {
    hide TransferReply, Delivered;
  }

  /** A reply altered on the way need not cost the annex: "}]" is delivered as "}" first, and the
      reader asks again from there. */
  lemma AlteredYetObtained(capacity: nat)
    requires capacity >= 4
    ensures var annex: seq<byte> := [BRACE, ']' as int];
            !AllIntact(annex, [2, 2, 2], capacity, capacity, 0) &&
            CollectOverLink(annex, [2, 2, 2], capacity, capacity, 0) == (annex, true)
  {
    hide *;
    var c: byte := ']' as int;
    var annex, first, second := [BRACE, c], [MORE, BRACE, c], [LAST, c];
    TransferOverLink(annex, [2, 2, 2], capacity, capacity, 0);
    NotPlain(annex, 0);
    DeliveredAltered(capacity);
    AlteredReplies(capacity);
    CollectOneOverLink(annex, [2, 2], capacity, capacity, 1, second, second);
    CollectOneOverLink(annex, [2, 2, 2], capacity, capacity, 0, first, [MORE, BRACE]);
    assert [2, 2, 2][1..] == [2, 2];
    assert [MORE, BRACE][1..] == [BRACE] && second[1..] == [c] && [BRACE] + [c] == annex;
    PlainMarks();
  }

  lemma NotPlain(s: seq<byte>, k: nat)
    requires k < |s| && IsSpecial(s[k])
    ensures !IsPlain(s[0..])
  {
    assert s[0..] == s;
  }

  lemma AlteredReplies(capacity: nat)
    requires capacity >= 4
    ensures var annex: seq<byte> := [BRACE, ']' as int];
            TransferReply(annex, 0, 2, capacity) == Response.Text([MORE, BRACE, ']' as int]) &&
            TransferReply(annex, 1, 2, capacity) == Response.Text([LAST, ']' as int]) &&
            Delivered(capacity, [LAST, ']' as int]) == Some([LAST, ']' as int])
  {
    hide TransferReply, Delivered;
    var c: byte := ']' as int;
    var annex := [BRACE, c];
    ReplyThatFits(annex, 0, 2, capacity);
    ReplyThatFits(annex, 1, 2, capacity);
    UnescapedFrameDecodes(capacity, [LAST, c]);
    assert annex[0..2] == annex && annex[1..] == [c];
    assert [MORE] + annex == [MORE, BRACE, c] && [LAST] + [c] == [LAST, c];
  }

  lemma CollectOneOverLink(annex: seq<byte>, requests: seq<nat>, capacity: nat, room: nat, offset: nat,
                           t: seq<byte>, u: seq<byte>)
    requires requests != [] && TransferReply(annex, offset, requests[0], capacity) == Response.Text(t)
    requires Delivered(room, t) == Some(u) && u != []
    ensures CollectOverLink(annex, requests, capacity, room, offset)
         == if u[0] == LAST then (u[1..], true)
            else
              var (rest, done) := CollectOverLink(annex, requests[1..], capacity, room, offset + |u| - 1);
              (u[1..] + rest, done)
  {
    hide TransferReply, Delivered;
  }

  lemma DeliveredAltered(capacity: nat)
    requires capacity >= 4
    ensures Delivered(capacity, [MORE, BRACE, ']' as int]) == Some([MORE, BRACE])
  {
    var c: byte := ']' as int;
    var raw := [MORE, BRACE, c];
    var hex := ByteAsHex(Sum(raw));
    assert raw[..2] == [MORE, BRACE] && [MORE, BRACE][..1] == [MORE] && [MORE][..0] == [];
    assert Unescape([MORE]) == ([MORE], false);
    assert Unescape([MORE, BRACE]) == ([MORE], true);
    assert FlipCase(c) == BRACE && [MORE] + [BRACE] == [MORE, BRACE];
    assert Unescape(raw) == ([MORE, BRACE], false);
    ByteHexRoundTrip(Sum(raw));
    NotDollar(hex[1]);
    hide Run, Step, Unescape, Sum, ByteAsHex, HexCharToNibble;
    RunFrame(capacity, raw, hex[0], hex[1]);
    var tail := raw + [HASH, hex[0], hex[1]];
    assert FrameText(raw) == [DOLLAR] + tail;
    RunHead(capacity, Hunting, DOLLAR, tail);
    StepHunting(capacity);
  }

  // ---------------------------------------------------------------- qThreadExtraInfo

  /** handleQueryThreadExtraInfoCommand, from behind the command's name: the platform's text for the
      thread, cut to half the capacity without any sign of it. */
  method HandleQueryThreadExtraInfo(mri: MriCore, info: nat -> Option<seq<byte>>, w: nat)
    requires mri.Valid() && w >= 1
    modifies mri.packet.packetBuffer, mri.packet.dataBuffer, mri.platformBuffer
    ensures mri.Initialised()
    ensures var s, capacity := old(mri.packet.dataBuffer.Rest()), mri.platformBuffer.Length - 4;
            mri.packet.dataBuffer.View()
            == if s == [] || s[0] != COMMA then Put(Response.Text([]), capacity, INVALID_ARGUMENT_ERROR)
               else Response.Text(InfoText(info(Truncate(ReadUInteger(s[1..], w).0, 4)), capacity))
  {
    hide ReadUInteger, Truncate, InfoText, Put;
    var ok, id := ReadThreadArgument(mri.packet.dataBuffer, w);
    if ok {
      WriteThreadExtraInfo(mri, info(id));
    } else {
      var _ := mri.PrepareStringResponse(INVALID_ARGUMENT_ERROR);
    }
  }

  /** A comma and the thread's number, zero when it is missing. */
  method ReadThreadArgument(buffer: Buffer, w: nat) returns (ok: bool, id: nat)
    requires buffer.Valid() && w >= 1
    modifies buffer`cur
    ensures buffer.Valid()
    ensures var s := old(buffer.Rest());
            ok == (s != [] && s[0] == COMMA) && (ok ==> id == Truncate(ReadUInteger(s[1..], w).0, 4))
  {
    hide ReadUInteger, Truncate, HexPrefix;
    ghost var s := buffer.Rest();
    id := 0;
    var comma, _ := buffer.IsNextCharEqualTo(COMMA);
    ok := comma;
    if ok {
      assert buffer.Rest() == s[1..];
      var value, _ := buffer.ReadUIntegerAsHex(w);
      id := Truncate(value, 4);
    }
  }

  method WriteThreadExtraInfo(mri: MriCore, info: Option<seq<byte>>)
    requires mri.Valid()
    modifies mri.packet.packetBuffer, mri.packet.dataBuffer, mri.platformBuffer
    ensures mri.Initialised()
    ensures mri.packet.dataBuffer.View() == Response.Text(InfoText(info, mri.platformBuffer.Length - 4))
  {
    hide TextAsHex, Put;
    mri.InitPacketBuffers();
    if info.Some? {
      var text := info.value;
      var n := mri.packet.dataBuffer.WriteSizedStringAsHex(text);
      assert text[..|text|] == text;
      PutFits([], mri.platformBuffer.Length - 4, TextAsHex(text[..n]));
    }
  }

  /** The reply to a known or an unknown thread: as much of the platform's text as fits. */
  function InfoText(info: Option<seq<byte>>, capacity: nat): (t: seq<byte>)
    ensures |t| <= capacity
  {
    match info
    case None => []
    case Some(text) => TextAsHex(if 2 * |text| <= capacity then text else text[..capacity / 2])
  }

  /** The whole of the platform's text goes out if and only if twice its length fits. */
  lemma InfoIsWholeWhen(text: seq<byte>, capacity: nat)
    ensures InfoText(Some(text), capacity) == TextAsHex(text) <==> 2 * |text| <= capacity
  {
  }

  // ---------------------------------------------------------------- the thread list

  /** Platform_RtosGetFirstThreadId and Platform_RtosGetNextThreadId over a fixed set of threads:
      0 marks the end, and asking again at the end gives 0 again. */
  class ThreadIterator {
    const ids: seq<nat>
    var next: nat

    ghost predicate Valid()
      reads this
    {
      next <= |ids| && forall k :: 0 <= k < |ids| ==> 0 < ids[k] < 0x1_0000_0000
    }

    method GetFirst() returns (id: nat)
      requires Valid()
      modifies this`next
      ensures Valid() && next == (if ids == [] then 0 else 1) && id == (if ids == [] then 0 else ids[0])
    {
      next := 0;
      id := GetNext();
    }

    method GetNext() returns (id: nat)
      requires Valid()
      modifies this`next
      ensures Valid()
      ensures if old(next) < |ids| then next == old(next) + 1 && id == ids[old(next)] else next == old(next) && id == 0
    {
      if next < |ids| {
        id := ids[next];
        next := next + 1;
      } else {
        id := 0;
      }
    }

    ghost function Remaining(): seq<nat>
      reads this
      requires Valid()
    {
      ids[next..]
    }
  }

  /** Ids as a reply lists them. */
  function Listed(ids: seq<nat>): seq<byte> {
    if ids == [] then []
    else if |ids| == 1 then UIntegerAsHex(ids[0])
    else Listed(ids[..|ids| - 1]) + [COMMA] + UIntegerAsHex(ids[|ids| - 1])
  }

  /** How many ids the next reply takes: at least one, then as long as nine characters are left. */
  function Taken(ids: seq<nat>, k: nat, capacity: nat): (n: nat)
    requires 1 <= k <= |ids|
    ensures k <= n <= |ids|
    decreases |ids| - k
  {
    if k < |ids| && 1 + |Listed(ids[..k])| + 9 <= capacity then Taken(ids, k + 1, capacity) else k
  }

  /** The replies that list all ids, one group of ids each. */
  function Groups(ids: seq<nat>, capacity: nat): seq<seq<nat>>
    decreases |ids|
  {
    if ids == [] then []
    else
      var n := Taken(ids, 1, capacity);
      [ids[..n]] + Groups(ids[n..], capacity)
  }

  function Flatten(groups: seq<seq<nat>>): seq<nat> {
    if groups == [] then [] else groups[0] + Flatten(groups[1..])
  }

  /** Reading a list of ids back. */
  function ParseIds(s: seq<byte>): seq<nat>
    decreases |s|
  {
    var k := HexPrefix(s);
    if k == 0 then []
    else if k < |s| && s[k] == COMMA then [HexValue(s[..k])] + ParseIds(s[k + 1..])
    else [HexValue(s[..k])]
  }

  lemma IdIsShort(id: nat)
    requires id < 0x1_0000_0000
    ensures 2 <= |UIntegerAsHex(id)| <= 8
  {
    assert Modulus(4) == 0x1_0000_0000 by {
      assert Modulus(1) == 256 && Modulus(2) == 256 * Modulus(1) && Modulus(3) == 256 * Modulus(2);
    }
    WordByteLength(id, 4);
  }

  /** No reply overruns a buffer of nine characters or more. */
  lemma {:induction false} GroupFits(ids: seq<nat>, k: nat, capacity: nat)
    requires capacity >= 9 && 1 <= k <= |ids| && 1 + |Listed(ids[..k])| <= capacity
    requires forall i :: 0 <= i < |ids| ==> ids[i] < 0x1_0000_0000
    ensures 1 + |Listed(ids[..Taken(ids, k, capacity)])| <= capacity
    decreases |ids| - k
  {
    if k < |ids| && 1 + |Listed(ids[..k])| + 9 <= capacity {
      ListedNext(ids, k);
      IdIsShort(ids[k]);
      GroupFits(ids, k + 1, capacity);
    }
  }

  /** A reply takes as many ids as the loop's guard allows: before each one more, nine characters
      were left, and behind the last either no id is left or fewer than nine. */
  lemma {:induction false} TakenIsGreedy(ids: seq<nat>, k: nat, capacity: nat, j: nat)
    requires 1 <= k <= |ids|
    ensures var n := Taken(ids, k, capacity);
            (k <= j < n ==> capacity - (1 + |Listed(ids[..j])|) >= 9) &&
            (n < |ids| ==> capacity - (1 + |Listed(ids[..n])|) < 9)
    decreases |ids| - k
  {
    hide Listed;
    if k < |ids| && 1 + |Listed(ids[..k])| + 9 <= capacity {
      TakenIsGreedy(ids, k + 1, capacity, j);
    }
  }

  lemma ListedOne(id: nat)
    ensures Listed([id]) == UIntegerAsHex(id)
  {
  }

  lemma TakenStep(ids: seq<nat>, k: nat, capacity: nat)
    requires 1 <= k <= |ids|
    ensures Taken(ids, k, capacity)
         == if k < |ids| && 1 + |Listed(ids[..k])| + 9 <= capacity then Taken(ids, k + 1, capacity) else k
  {
  }

  lemma ListedNext(ids: seq<nat>, k: nat)
    requires 1 <= k < |ids|
    ensures Listed(ids[..k + 1]) == Listed(ids[..k]) + [COMMA] + UIntegerAsHex(ids[k])
  {
    assert ids[..k + 1][..k] == ids[..k];
  }

  lemma {:induction false} ListedFront(id: nat, rest: seq<nat>)
    requires rest != []
    ensures Listed([id] + rest) == UIntegerAsHex(id) + [COMMA] + Listed(rest)
  {
    hide UIntegerAsHex;
    var ids := [id] + rest;
    var n := |rest| - 1;
    assert ids[..|ids| - 1] == [id] + rest[..n];
    if n > 0 {
      ListedFront(id, rest[..n]);
      var a, b, c := UIntegerAsHex(id) + [COMMA], Listed(rest[..n]), [COMMA] + UIntegerAsHex(rest[n]);
      assert (a + b) + [COMMA] + UIntegerAsHex(rest[n]) == a + (b + [COMMA] + UIntegerAsHex(rest[n]));
    } else {
      assert [id] + rest[..n] == [id];
    }
  }

  lemma {:induction false} IdsRoundTrip(ids: seq<nat>)
    requires ids != []
    ensures ParseIds(Listed(ids)) == ids
  {
    hide UIntegerAsHex, HexCharToNibble, HexPrefix, HexValue;
    var id, rest := ids[0], ids[1..];
    var digits := UIntegerAsHex(id);
    if rest == [] {
      UIntegerHexRoundTrip(id, []);
      assert digits + [] == digits && digits[..|digits|] == digits;
      assert ids == [id];
    } else {
      assert ids == [id] + rest;
      ListedFront(id, rest);
      var after := [COMMA] + Listed(rest);
      CommaEndsDigits();
      UIntegerHexRoundTrip(id, after);
      assert Listed(ids) == digits + after;
      assert (digits + after)[..|digits|] == digits && (digits + after)[|digits| + 1..] == Listed(rest);
      IdsRoundTrip(rest);
    }
  }

  lemma CommaEndsDigits()
    ensures !IsHexDigit(COMMA)
  {
  }

  lemma {:induction false} GroupsAreReadable(ids: seq<nat>, capacity: nat)
    requires forall i :: 0 <= i < |ids| ==> ids[i] < 0x1_0000_0000
    requires capacity >= 9
    ensures forall g :: g in Groups(ids, capacity) ==>
              g != [] && 1 + |Listed(g)| <= capacity && ParseIds(Listed(g)) == g
    decreases |ids|
  {
    hide Listed, ParseIds, UIntegerAsHex, Taken, Modulus;
    if ids != [] {
      var n := Taken(ids, 1, capacity);
      ListedOne(ids[0]);
      IdIsShort(ids[0]);
      assert ids[..1] == [ids[0]];
      GroupFits(ids, 1, capacity);
      IdsRoundTrip(ids[..n]);
      GroupsAreReadable(ids[n..], capacity);
    }
  }

  lemma {:induction false} GroupsFlatten(ids: seq<nat>, capacity: nat)
    ensures Flatten(Groups(ids, capacity)) == ids
    decreases |ids|
  {
    hide Taken;
    if ids != [] {
      var n := Taken(ids, 1, capacity);
      GroupsFlatten(ids[n..], capacity);
      assert Groups(ids, capacity) == [ids[..n]] + Groups(ids[n..], capacity);
      hide Groups;
      assert Groups(ids, capacity)[1..] == Groups(ids[n..], capacity);
      assert ids[..n] + ids[n..] == ids;
    }
  }

  /** Conservation: across all replies every id is listed exactly once, in iterator order. */
  lemma ThreadListIsConserved(ids: seq<nat>, capacity: nat)
    requires forall i :: 0 <= i < |ids| ==> ids[i] < 0x1_0000_0000
    requires capacity >= 9
    ensures Flatten(Groups(ids, capacity)) == ids
    ensures forall g :: g in Groups(ids, capacity) ==>
              g != [] && 1 + |Listed(g)| <= capacity && ParseIds(Listed(g)) == g
  {
    hide Listed, ParseIds, Groups;
    GroupsFlatten(ids, capacity);
    GroupsAreReadable(ids, capacity);
  }

  /** A separator and an id, in a buffer with nine characters left. */
  method WriteSeparatorAndId(mri: MriCore, separator: byte, id: nat, ghost text: seq<byte>)
    requires mri.Initialised() && mri.packet.dataBuffer.View() == Response.Text(text)
    requires |text| + 9 <= mri.platformBuffer.Length - 4 && id < 0x1_0000_0000
    modifies mri.packet.dataBuffer`cur, mri.platformBuffer
    ensures mri.Initialised()
    ensures mri.packet.dataBuffer.View() == Response.Text(text + [separator] + UIntegerAsHex(id))
  {
    hide Buffer.Wrote, UIntegerAsHex, Modulus, Put;
    ghost var capacity := mri.platformBuffer.Length - 4;
    IdIsShort(id);
    IdIsWord(id);
    PutFits(text, capacity, [separator]);
    PutFits(text + [separator], capacity, UIntegerAsHex(id));
    var _ := mri.packet.dataBuffer.WriteChar(separator);
    var _ := mri.packet.dataBuffer.WriteUIntegerAsHex(id, 4);
  }

  method OutputThreadIds(mri: MriCore, it: ThreadIterator, first: nat)
    requires mri.Valid() && it.Valid() && mri.platformBuffer.Length - 4 >= 9
    requires first == 0 ==> it.next == |it.ids|
    requires first != 0 ==> it.next > 0 && first == it.ids[it.next - 1]
    modifies mri.packet.packetBuffer, mri.packet.dataBuffer, mri.platformBuffer, it`next
    ensures mri.Initialised() && it.Valid()
    ensures first == 0 ==> it.next == old(it.next) && mri.packet.dataBuffer.View() == Response.Text([LAST])
    ensures first != 0 ==>
              var todo := it.ids[old(it.next) - 1..];
              var n := Taken(todo, 1, mri.platformBuffer.Length - 4);
              it.next == old(it.next) - 1 + n &&
              mri.packet.dataBuffer.View() == Response.Text([MORE] + Listed(todo[..n]))
  {
    hide UIntegerAsHex, Put, Listed, Taken, Buffer.Wrote;
    mri.InitPacketBuffers();
    var buffer := mri.packet.dataBuffer;
    ghost var capacity := mri.platformBuffer.Length - 4;
    if first == 0 {
      PutFits([], capacity, [LAST]);
      var _ := buffer.WriteChar(LAST);
      return;
    }
    ghost var todo := it.ids[it.next - 1..];
    WriteSeparatorAndId(mri, MORE, first, []);
    ListedOne(first);
    assert todo[..1] == [first] && [] + [MORE] == [MORE];
    OutputMoreThreadIds(mri, it, todo);
  }

  /** The loop of outputThreadIds. */
  method OutputMoreThreadIds(mri: MriCore, it: ThreadIterator, ghost todo: seq<nat>)
    requires mri.Initialised() && it.Valid() && it.next > 0 && todo == it.ids[it.next - 1..]
    requires mri.packet.dataBuffer.View() == Response.Text([MORE] + Listed(todo[..1]))
    modifies mri.packet.dataBuffer`cur, mri.platformBuffer, it`next
    ensures mri.Initialised() && it.Valid()
    ensures var n := Taken(todo, 1, mri.platformBuffer.Length - 4);
            it.next == old(it.next) - 1 + n &&
            mri.packet.dataBuffer.View() == Response.Text([MORE] + Listed(todo[..n]))
  {
    hide UIntegerAsHex, Put, Listed, Taken, Buffer.Wrote;
    var buffer := mri.packet.dataBuffer;
    ghost var capacity, k := mri.platformBuffer.Length - 4, 1;
    while buffer.BytesLeft() >= 9
      invariant mri.Initialised() && it.Valid() && 1 <= k <= |todo| && it.next == old(it.next) - 1 + k
      invariant buffer.View() == Response.Text([MORE] + Listed(todo[..k]))
      invariant Taken(todo, 1, capacity) == Taken(todo, k, capacity)
      decreases |todo| - k
    {
      TakenStep(todo, k, capacity);
      var id := it.GetNext();
      if id == 0 {
        assert k == |todo| && Taken(todo, 1, capacity) == k;
        return;
      }
      ListedNext(todo, k);
      ghost var text := [MORE] + Listed(todo[..k]);
      WriteSeparatorAndId(mri, COMMA, id, text);
      assert text + [COMMA] + UIntegerAsHex(id) == [MORE] + Listed(todo[..k + 1]);
      k := k + 1;
    }
    assert |buffer.View().text| == buffer.cur - buffer.start == 1 + |Listed(todo[..k])|;
    TakenStep(todo, k, capacity);
  }

  lemma PutFits(text: seq<byte>, capacity: nat, s: seq<byte>)
    ensures |text| + |s| <= capacity ==> Put(Response.Text(text), capacity, s) == Response.Text(text + s)
    ensures [] + s == s
  {
  }

  lemma IdIsWord(id: nat)
    requires id < 0x1_0000_0000
    ensures id < Modulus(4)
  {
    assert Modulus(1) == 256 && Modulus(2) == 256 * Modulus(1) && Modulus(3) == 256 * Modulus(2);
  }

  method HandleQueryFirstThreadInfo(mri: MriCore, it: ThreadIterator)
    requires mri.Valid() && it.Valid() && mri.platformBuffer.Length - 4 >= 9
    modifies mri.packet.packetBuffer, mri.packet.dataBuffer, mri.platformBuffer, it`next
    ensures mri.Initialised() && it.Valid()
    ensures it.ids == [] ==> mri.packet.dataBuffer.View() == Response.Text([]) && it.next == 0
    ensures it.ids != [] ==>
              var n := Taken(it.ids, 1, mri.platformBuffer.Length - 4);
              it.next == n && mri.packet.dataBuffer.View() == Response.Text([MORE] + Listed(it.ids[..n]))
  {
    var id := it.GetFirst();
    if id == 0 {
      PutFits([], mri.platformBuffer.Length - 4, []);
      var _ := mri.PrepareStringResponse([]);
      return;
    }
    assert it.ids[0..] == it.ids;
    OutputThreadIds(mri, it, id);
  }

  method HandleQuerySubsequentThreadInfo(mri: MriCore, it: ThreadIterator)
    requires mri.Valid() && it.Valid() && mri.platformBuffer.Length - 4 >= 9
    modifies mri.packet.packetBuffer, mri.packet.dataBuffer, mri.platformBuffer, it`next
    ensures mri.Initialised() && it.Valid()
    ensures old(it.Remaining()) == [] ==> mri.packet.dataBuffer.View() == Response.Text([LAST]) && it.Remaining() == []
    ensures old(it.Remaining()) != [] ==>
              var todo := old(it.Remaining());
              var n := Taken(todo, 1, mri.platformBuffer.Length - 4);
              it.Remaining() == todo[n..] && mri.packet.dataBuffer.View() == Response.Text([MORE] + Listed(todo[..n]))
  {
    var id := it.GetNext();
    OutputThreadIds(mri, it, id);
  }

  /** The buffer holds the reply that starts the list todo; the iterator stands behind its ids. */
  ghost predicate Awaiting(mri: MriCore, it: ThreadIterator, todo: seq<nat>)
    reads mri.packet.packetBuffer, mri.packet.dataBuffer, mri.packet.dataBuffer.mem, it
  {
    mri.Initialised() && it.Valid() && mri.platformBuffer.Length - 4 >= 9 &&
    if todo == [] then
      it.Remaining() == [] && mri.packet.dataBuffer.View() in {Response.Text([]), Response.Text([LAST])}
    else
      var n := Taken(todo, 1, mri.platformBuffer.Length - 4);
      it.Remaining() == todo[n..] && mri.packet.dataBuffer.View() == Response.Text([MORE] + Listed(todo[..n]))
  }

  /** The debugger's reading of one reply. */
  method ReadReply(mri: MriCore, ghost group: seq<nat>) returns (ids: seq<nat>)
    requires mri.Valid() && group != []
    requires mri.packet.dataBuffer.View() == Response.Text([MORE] + Listed(group))
    ensures ids == group
  {
    hide Listed, ParseIds;
    var buffer := mri.packet.dataBuffer;
    ghost var text := buffer.mem[buffer.start..buffer.cur];
    assert buffer.View() == Response.Text(text);
    assert text == [MORE] + Listed(group);
    assert buffer.cur - buffer.start == |text| >= 1;
    var reply := buffer.mem[buffer.start + 1..buffer.cur];
    assert reply == text[1..] == Listed(group);
    IdsRoundTrip(group);
    ids := ParseIds(reply);
  }

  /** Whether the reply in the buffer is a list. */
  method IsList(mri: MriCore, it: ThreadIterator, ghost todo: seq<nat>) returns (b: bool)
    requires Awaiting(mri, it, todo)
    ensures b <==> todo != []
  {
    hide Listed, Taken;
    var buffer := mri.packet.dataBuffer;
    ghost var text := buffer.mem[buffer.start..buffer.cur];
    assert buffer.View() == Response.Text(text);
    assert |text| == buffer.cur - buffer.start && (text != [] ==> text[0] == buffer.mem[buffer.start]);
    b := buffer.cur > buffer.start && buffer.mem[buffer.start] == MORE;
  }

  /** Reading one list and asking for the next. */
  method TakeReply(mri: MriCore, it: ThreadIterator, ghost todo: seq<nat>) returns (ids: seq<nat>, ghost rest: seq<nat>)
    requires Awaiting(mri, it, todo) && todo != []
    modifies mri.packet.packetBuffer, mri.packet.dataBuffer, mri.platformBuffer, it`next
    ensures ids != [] && ids + rest == todo && Awaiting(mri, it, rest)
  {
    hide Listed, ParseIds, Taken, Put, Buffer.View;
    ghost var n := Taken(todo, 1, mri.platformBuffer.Length - 4);
    ids := ReadReply(mri, todo[..n]);
    rest := todo[n..];
    HandleQuerySubsequentThreadInfo(mri, it);
  }

  /** The debugger's side: ask first, then again until a reply is not a list. What it collects is
      every thread once, in order. */
  method ListThreads(mri: MriCore, it: ThreadIterator) returns (all: seq<nat>)
    requires mri.Valid() && it.Valid() && mri.platformBuffer.Length - 4 >= 9
    modifies mri.packet.packetBuffer, mri.packet.dataBuffer, mri.platformBuffer, it`next
    ensures all == it.ids
  {
    hide Listed, Taken, Buffer.View;
    HandleQueryFirstThreadInfo(mri, it);
    all := [];
    ghost var todo := it.ids;
    assert Awaiting(mri, it, todo);
    hide Awaiting;
    var more := IsList(mri, it, todo);
    while more
      invariant Awaiting(mri, it, todo) && all + todo == it.ids && more == (todo != [])
      decreases |todo|
    {
      var ids;
      ghost var rest;
      ids, rest := TakeReply(mri, it, todo);
      assert all + ids + rest == all + todo;
      all, todo := all + ids, rest;
      more := IsList(mri, it, todo);
    }
  }
}
