/** The connected-client table of src/libs/ClientTable.cpp, updated in place, and the paced send of
    src/libs/ClientTable.h against any module, clock and pause. */
module ClientTable {
  import opened Common
  import opened ClientClock

  const MAX_WIFI_CLIENTS := 3

  class Slot {
    var inUse: bool
    var client: Client

    constructor ()
      ensures !inUse && client == FRESH
    {
      inUse := false;
      client := FRESH;
    }

    ghost function View(): Option<Client>
      reads this
    {
      if inUse then Some(client) else None
    }

    /** slot = Slot{} */
    method Clear()
      modifies this
      ensures !inUse && client == FRESH
    {
      inUse := false;
      client := FRESH;
    }

    method Note(sentEverything: bool, errcode: byte)
      modifies this`client
      ensures client == NoteSendResult(old(client), SendResult(sentEverything, errcode))
    {
      if sentEverything {
        client := client.(consecutiveSendFailures := 0);
        return;
      }
      if ErrorMeansClientGone(errcode) {
        client := client.(sendFailed := true);
        return;
      }
      if client.consecutiveSendFailures < 0xFF {
        client := client.(consecutiveSendFailures := client.consecutiveSendFailures + 1);
      }
    }
  }

  /** An entry as add_wifi admits it. */
  function Admitted(address: Address, nowUs: word32): Client {
    FRESH.(address := address, lastUserUs := nowUs, lastHeartbeatUs := nowUs,
           helloWindowStarted := true, helloWindowStartUs := nowUs)
  }

  /** A new entry starts its window now and is neither old nor shown gone. */
  lemma AdmittedIsFresh(address: Address, nowUs: word32)
    ensures var c := Admitted(address, nowUs);
            c.link == Wifi && c.address == address && !c.identified && !c.helloHeld &&
            c.helloWindowStarted && c.helloWindowStartUs == nowUs &&
            c.lastUserUs == c.lastHeartbeatUs == nowUs &&
            !c.sendFailed && c.consecutiveSendFailures == 0 && !ClientIsOld(c, nowUs) && !SendsShowClientGone(c)
  {
  }

  /** Whoever is added later counts as admitted before an earlier client only if both were added in
      the same microsecond and the later one took the lower slot. */
  lemma LaterIsNotBefore(earlier: Address, a: nat, slotA: int, later: Address, b: nat, slotB: int)
    requires a <= b < a + 0x8000_0000
    ensures AdmittedBefore(Admitted(later, Reading(b)).helloWindowStartUs, slotB,
                           Admitted(earlier, Reading(a)).helloWindowStartUs, slotA)
       <==> a == b && slotB < slotA
  {
    AdmittedBeforeIsTrueOrder(b, slotB, a, slotA);
  }

  /** No two entries share an address, and every entry's window has started. */
  ghost predicate Distinct(wifi: seq<Option<Client>>) {
    (forall i :: 0 <= i < |wifi| && wifi[i].Some? ==> wifi[i].value.helloWindowStarted && wifi[i].value.link == Wifi) &&
    (forall i, j :: 0 <= i < j < |wifi| && wifi[i].Some? && wifi[j].Some? ==>
      wifi[i].value.address != wifi[j].value.address)
  }

  lemma NobodyIsDistinct(wifi: seq<Option<Client>>)
    requires forall i :: 0 <= i < |wifi| ==> wifi[i].None?
    ensures Distinct(wifi)
  {
  }

  ghost predicate IsStampOf(c: Client, start: nat, now: nat) {
    c.helloWindowStartUs == Reading(start) && -0x8000_0000 <= now - start < 0x8000_0000
  }

  /** Five seconds of window have passed without the client identifying. */
  predicate OutOfTime(c: Client, now: nat, start: nat) {
    !c.identified && !c.helloHeld && c.helloWindowStarted && now - start >= 5_000_000
  }

  lemma OldOnTime(c: Client, now: nat, start: nat)
    requires IsStampOf(c, start, now)
    ensures ClientIsOld(c, Reading(now)) <==> OutOfTime(c, now, start)
  {
    hide ClientIsOld, Reading;
    OldMeansWindowElapsed(c, now, start);
  }

  class Table {
    const slots: seq<Slot>
    const usb: Slot

    ghost predicate Valid()
      reads this, slots, usb
    {
      |slots| == MAX_WIFI_CLIENTS && usb !in slots &&
      (forall i, j :: 0 <= i < j < |slots| ==> slots[i] != slots[j]) && Distinct(Wifi())
    }

    /** The WiFi entries by index. */
    ghost function Wifi(): (w: seq<Option<Client>>)
      reads slots
      ensures |w| == |slots| && forall i :: 0 <= i < |w| ==> w[i] == slots[i].View()
    {
      seq(|slots|, i requires 0 <= i < |slots| reads slots => slots[i].View())
    }

    constructor ()
      ensures Valid() && fresh(usb) && (forall s :: s in slots ==> fresh(s))
      ensures !usb.inUse && forall s :: s in slots ==> !s.inUse
    {
      hide Distinct;
      var a := new Slot();
      var b := new Slot();
      var c := new Slot();
      slots := [a, b, c];
      usb := new Slot();
      new;
      NobodyIsDistinct(Wifi());
    }

    /** The index of the entry at address, or -1. */
    method FindWifi(address: Address) returns (index: int)
      requires Valid()
      ensures -1 <= index < |slots|
      ensures index >= 0 ==> Wifi()[index].Some? && Wifi()[index].value.address == address
      ensures index < 0 ==> forall j :: 0 <= j < |slots| && Wifi()[j].Some? ==> Wifi()[j].value.address != address
    {
      for i := 0 to |slots|
        invariant forall j :: 0 <= j < i && slots[j].inUse ==> slots[j].client.address != address
      {
        if slots[i].inUse && slots[i].client.address == address {
          return i;
        }
      }
      index := -1;
    }

    /** Known address: nothing changes. Otherwise the first free slot is taken, and a full table
        refuses without evicting anyone. */
    method AddWifi(address: Address, nowUs: word32) returns (index: int)
      requires Valid()
      modifies slots
      ensures Valid() && usb.View() == old(usb.View())
      ensures -1 <= index < |slots|
      ensures index == -1 <==> forall j :: 0 <= j < |slots| ==>
                old(Wifi())[j].Some? && old(Wifi())[j].value.address != address
      ensures index == -1 ==> Wifi() == old(Wifi())
      ensures index >= 0 && old(Wifi())[index].Some? ==>
                old(Wifi())[index].value.address == address && Wifi() == old(Wifi())
      ensures index >= 0 && old(Wifi())[index].None? ==>
                Wifi() == old(Wifi())[index := Some(Admitted(address, nowUs))] &&
                (var c := Wifi()[index].value;
                 c.address == address && c.helloWindowStarted && c.helloWindowStartUs == nowUs && !c.identified &&
                 !ClientIsOld(c, nowUs) && !c.sendFailed && c.consecutiveSendFailures == 0) &&
                (forall j :: 0 <= j < index ==> old(Wifi())[j].Some?) &&
                (forall j :: 0 <= j < |slots| && old(Wifi())[j].Some? ==> old(Wifi())[j].value.address != address)
    {
      AdmittedIsFresh(address, nowUs);
      index := FindWifi(address);
      if index >= 0 {
        return;
      }
      for i := 0 to |slots|
        invariant Wifi() == old(Wifi()) && usb.View() == old(usb.View())
        invariant forall j :: 0 <= j < i ==> old(Wifi())[j].Some?
      {
        if !slots[i].inUse {
          slots[i].inUse := true;
          slots[i].client := Admitted(address, nowUs);
          assert Wifi() == old(Wifi())[i := Some(Admitted(address, nowUs))];
          return i;
        }
      }
      index := -1;
    }

    method RemoveWifi(index: int) returns (removed: bool)
      requires Valid()
      modifies slots
      ensures Valid() && usb.View() == old(usb.View())
      ensures removed <==> 0 <= index < |slots| && old(Wifi())[index].Some?
      ensures Wifi() == if removed then old(Wifi())[index := None] else old(Wifi())
    {
      if index < 0 || index >= MAX_WIFI_CLIENTS || !slots[index].inUse {
        return false;
      }
      slots[index].Clear();
      assert Wifi() == old(Wifi())[index := None];
      return true;
    }

    method SetUsbPresent(present: bool, nowUs: word32)
      requires Valid()
      modifies usb
      ensures Valid() && Wifi() == old(Wifi())
      ensures usb.View() == if !present then None
                            else if old(usb.View()).Some? then old(usb.View())
                            else Some(FRESH.(link := Usb, lastUserUs := nowUs, lastHeartbeatUs := nowUs))
      ensures present && old(usb.View()).None? ==>
                usb.inUse && usb.client.link == Usb && !usb.client.identified && !usb.client.helloWindowStarted &&
                !usb.client.sendFailed && usb.client.consecutiveSendFailures == 0
    {
      if !present {
        usb.Clear();
      } else if !usb.inUse {
        usb.inUse := true;
        usb.client := FRESH.(link := Usb, lastUserUs := nowUs, lastHeartbeatUs := nowUs);
      }
      assert Wifi() == old(Wifi());
    }

    /** Only the first start counts until the session is cleared. */
    method StartUsbHelloWindow(nowUs: word32)
      requires Valid()
      modifies usb
      ensures Valid() && Wifi() == old(Wifi())
      ensures usb.View() == match old(usb.View())
                            case None => None
                            case Some(c) => if c.helloWindowStarted then Some(c)
                                            else Some(c.(helloWindowStarted := true, helloWindowStartUs := nowUs))
    {
      if usb.inUse && !usb.client.helloWindowStarted {
        usb.client := usb.client.(helloWindowStarted := true, helloWindowStartUs := nowUs);
      }
      assert Wifi() == old(Wifi());
    }

    /** The vote of the rule that spares one client: true for the one admitted first. */
    method IsEarliestPresent(index: int) returns (earliest: bool)
      requires Valid()
      ensures earliest <==> 0 <= index < |slots| && IsEarliest(Wifi(), usb.View(), index)
      ensures earliest <==>
        0 <= index < |slots| && slots[index].inUse &&
        (forall j :: 0 <= j < |slots| && j != index && slots[j].inUse ==>
           !AdmittedBefore(slots[j].client.helloWindowStartUs, j, slots[index].client.helloWindowStartUs, index)) &&
        (usb.inUse && usb.client.helloWindowStarted ==>
           !AdmittedBefore(usb.client.helloWindowStartUs, -1, slots[index].client.helloWindowStartUs, index))
    {
      if index < 0 || index >= MAX_WIFI_CLIENTS || !slots[index].inUse {
        return false;
      }
      var candidate := slots[index].client.helloWindowStartUs;
      for i := 0 to |slots|
        invariant forall j :: 0 <= j < i && j != index && Wifi()[j].Some? ==>
          !AdmittedBefore(Wifi()[j].value.helloWindowStartUs, j, candidate, index)
      {
        if i != index && slots[i].inUse && AdmittedBefore(slots[i].client.helloWindowStartUs, i, candidate, index) {
          assert PresentAt(Wifi(), usb.View(), i);
          return false;
        }
      }
      if usb.inUse && usb.client.helloWindowStarted &&
         AdmittedBefore(usb.client.helloWindowStartUs, USB_SLOT, candidate, index) {
        assert PresentAt(Wifi(), usb.View(), USB_SLOT);
        return false;
      }
      return true;
    }

    /** nowUs is the reading at the true time now, and every entry's stamp that at the time given
        for its slot, less than half the counter's range away. */
    ghost predicate IsTimed(nowUs: word32, now: nat, times: int -> nat)
      reads this, slots, usb
    {
      nowUs == Reading(now) &&
      (forall i :: 0 <= i < |slots| && slots[i].inUse ==> IsStampOf(slots[i].client, times(i), now)) &&
      (usb.inUse ==> IsStampOf(usb.client, times(-1), now))
    }

    lemma OldIsOutOfTime(nowUs: word32, now: nat, times: int -> nat)
      requires IsTimed(nowUs, now, times)
      ensures forall i :: 0 <= i < |slots| && slots[i].inUse ==>
                (ClientIsOld(slots[i].client, nowUs) <==> OutOfTime(slots[i].client, now, times(i)))
      ensures usb.inUse ==> (ClientIsOld(usb.client, nowUs) <==> OutOfTime(usb.client, now, times(-1)))
    {
      hide ClientIsOld, OutOfTime, Reading;
      forall i | 0 <= i < |slots| && slots[i].inUse
        ensures ClientIsOld(slots[i].client, nowUs) <==> OutOfTime(slots[i].client, now, times(i))
      {
        OldOnTime(slots[i].client, now, times(i));
      }
      if usb.inUse {
        OldOnTime(usb.client, now, times(-1));
      }
    }

    /** Whether some client but the excepted ones is old: against true times, not identified, not
        held, and five seconds past the start of its window. */
    method HasOldClient(nowUs: word32, exceptWifiIndex: int, excludeUsb: bool, ghost now: nat, ghost times: int -> nat)
      returns (found: bool)
      requires Valid()
      ensures IsTimed(nowUs, now, times) ==>
        (found <==>
          (exists i :: 0 <= i < |slots| && i != exceptWifiIndex && slots[i].inUse && OutOfTime(slots[i].client, now, times(i))) ||
          (!excludeUsb && usb.inUse && OutOfTime(usb.client, now, times(-1))))
      ensures found <==>
        (exists i :: 0 <= i < |slots| && i != exceptWifiIndex && Wifi()[i].Some? && ClientIsOld(Wifi()[i].value, nowUs)) ||
        (!excludeUsb && usb.View().Some? && ClientIsOld(usb.View().value, nowUs))
    {
      for i := 0 to |slots|
        invariant forall j :: 0 <= j < i && j != exceptWifiIndex && Wifi()[j].Some? ==> !ClientIsOld(Wifi()[j].value, nowUs)
      {
        if i != exceptWifiIndex && slots[i].inUse && ClientIsOld(slots[i].client, nowUs) {
          assert Wifi()[i].Some? && ClientIsOld(Wifi()[i].value, nowUs);
          if IsTimed(nowUs, now, times) {
            OldIsOutOfTime(nowUs, now, times);
          }
          return true;
        }
      }
      found := !excludeUsb && usb.inUse && ClientIsOld(usb.client, nowUs);
      if IsTimed(nowUs, now, times) {
        OldIsOutOfTime(nowUs, now, times);
      }
    }
  }

  // ---------------------------------------------------------------- sending

  const MAX_BUSY_SEND_WAIT_US := 100_000

  /** One send_chunk call: the bytes offered, how many the module took, and when it returned. */
  datatype Chunk = Chunk(offset: nat, size: nat, taken: nat, errcode: byte, at: nat)

  /** The module, the clock and the pause, behaving in any way at all, except that a pause takes
      at least a microsecond and that neither it nor a send takes half the counter's range. */
  class Surroundings {
    ghost var chunks: seq<Chunk>
    ghost var pauses: nat
    var time: nat

    method SendChunk(offset: nat, size: nat) returns (taken: nat, errcode: byte)
      modifies this
      ensures taken <= size && chunks == old(chunks) + [Chunk(offset, size, taken, errcode, time)] && pauses == old(pauses)
      ensures old(time) <= time <= old(time) + 0x8000_0000
    {
      taken := *;
      errcode := *;
      if taken > size {
        taken := size;
      }
      var duration: int := *;
      time := time + if 0 <= duration <= 0x8000_0000 then duration else 0;
      chunks := chunks + [Chunk(offset, size, taken, errcode, time)];
    }

    method NowUs() returns (now: word32)
      ensures now == Reading(time)
    {
      now := time % 0x1_0000_0000;
    }

    method Pause()
      modifies this
      ensures old(time) < time <= old(time) + 0x8000_0000 - MAX_BUSY_SEND_WAIT_US
      ensures chunks == old(chunks) && pauses == old(pauses) + 1
    {
      var duration: int := *;
      time := time + if 0 < duration <= 0x8000_0000 - MAX_BUSY_SEND_WAIT_US then duration else 1;
      pauses := pauses + 1;
    }
  }

  function Taken(chunks: seq<Chunk>): nat {
    if chunks == [] then 0 else Taken(chunks[..|chunks| - 1]) + chunks[|chunks| - 1].taken
  }

  /** Every chunk starts at exactly the bytes taken before it, and is as large as allowed. */
  ghost predicate Contiguous(chunks: seq<Chunk>, length: nat, maxChunk: nat) {
    forall k :: 0 <= k < |chunks| ==>
      chunks[k].taken <= chunks[k].size && chunks[k].offset == Taken(chunks[..k]) < length &&
      chunks[k].size == (if length - chunks[k].offset > maxChunk then maxChunk else length - chunks[k].offset)
  }

  predicate Short(c: Chunk) {
    c.taken < c.size
  }

  /** A short send that may be tried again: the module is busy and less than a tenth of a second has
      passed on the 32-bit clock since the start. */
  predicate MayRetry(c: Chunk, started: nat)
    requires started <= c.at
  {
    c.errcode in {0x10, 0x11, 0x12, 0x1D} && (c.at - started) % 0x1_0000_0000 < 100_000
  }

  lemma MayRetryByClock(c: Chunk, started: nat)
    requires started <= c.at
    ensures MayRetry(c, started) <==>
              ErrorMeansModuleBusy(c.errcode) && Sub32(Reading(c.at), Reading(started)) < MAX_BUSY_SEND_WAIT_US
  {
    SubIsElapsed(started, c.at);
  }

  /** Every short send so far was allowed another try. */
  ghost predicate AllRetried(calls: seq<Chunk>, mayWait: bool, started: nat) {
    forall k :: 0 <= k < |calls| ==>
      started <= calls[k].at && (Short(calls[k]) ==> mayWait && MayRetry(calls[k], started))
  }

  lemma AllRetriedNext(calls: seq<Chunk>, next: Chunk, mayWait: bool, started: nat)
    requires AllRetried(calls, mayWait, started) && started <= next.at
    ensures (Short(next) ==> mayWait && MayRetry(next, started)) ==> AllRetried(calls + [next], mayWait, started)
    ensures AllButLastRetried(calls + [next], mayWait, started)
  {
    hide MayRetry, Short;
  }

  lemma NoneRetried(mayWait: bool, started: nat)
    ensures AllRetried([], mayWait, started) && AllButLastRetried([], mayWait, started)
  {
  }

  ghost predicate AllButLastRetried(calls: seq<Chunk>, mayWait: bool, started: nat) {
    (forall k :: 0 <= k < |calls| ==> started <= calls[k].at) &&
    forall k :: 0 <= k < |calls| - 1 && Short(calls[k]) ==> mayWait && MayRetry(calls[k], started)
  }

  lemma ContiguousNone(length: nat, maxChunk: nat)
    ensures Contiguous([], length, maxChunk) && Taken([]) == 0
  {
  }

  lemma ContiguousNext(chunks: seq<Chunk>, next: Chunk, length: nat, maxChunk: nat)
    requires Contiguous(chunks, length, maxChunk)
    requires next.taken <= next.size && next.offset == Taken(chunks) < length
    requires next.size == (if length - next.offset > maxChunk then maxChunk else length - next.offset)
    ensures Contiguous(chunks + [next], length, maxChunk) && Taken(chunks + [next]) == Taken(chunks) + next.taken
  {
    var all := chunks + [next];
    assert all[..|chunks|] == chunks;
    forall k | 0 <= k < |chunks|
      ensures all[k].offset == Taken(all[..k])
    {
      assert all[..k] == chunks[..k];
    }
  }

  /** The clock check after one more pause and send reads later than the check before it. */
  lemma WaitAdvances(started: nat, before: nat, now: nat)
    requires started <= before < now <= before + 0x1_0000_0000 - MAX_BUSY_SEND_WAIT_US
    requires Sub32(Reading(before), Reading(started)) < MAX_BUSY_SEND_WAIT_US
    ensures Sub32(Reading(now), Reading(started)) > Sub32(Reading(before), Reading(started))
  {
    SubIsElapsed(started, before);
    SubIsElapsed(started, now);
    hide Sub32, Reading;
    var q, e, d := (before - started) / 0x1_0000_0000, (before - started) % 0x1_0000_0000, now - before;
    RemainderIsUnique(now - started, q, e + d, 0x1_0000_0000);
  }

  lemma SubIsElapsed(started: nat, now: nat)
    requires started <= now
    ensures Sub32(Reading(now), Reading(started)) == (now - started) % 0x1_0000_0000
  {
    var qs, qn := started / 0x1_0000_0000, now / 0x1_0000_0000;
    assert now - started == 0x1_0000_0000 * (qn - qs) + Reading(now) - Reading(started);
  }

  /** send_to_client: a contiguous prefix is delivered and its length returned; the client's
      failure run is cleared exactly when everything went; a short send is tried again exactly for a
      client without a failure, a busy module and time left. */
  method SendToClient(slot: Slot, length: nat, maxChunk: nat, around: Surroundings)
    returns (sent: nat, ghost calls: seq<Chunk>)
    requires maxChunk > 0
    modifies slot`client, around
    ensures around.chunks == old(around.chunks) + calls && Contiguous(calls, length, maxChunk)
    ensures sent == Taken(calls) <= length
    ensures if sent == length then slot.client == NoteSendResult(old(slot.client), SendResult(true, 0))
            else calls != [] && Short(calls[|calls| - 1]) &&
                 slot.client == NoteSendResult(old(slot.client), SendResult(false, calls[|calls| - 1].errcode))
    ensures AllButLastRetried(calls, old(slot.client).consecutiveSendFailures == 0, old(around.time))
    ensures sent < length ==>
              !(old(slot.client).consecutiveSendFailures == 0 && MayRetry(calls[|calls| - 1], old(around.time)))
    ensures old(slot.client).consecutiveSendFailures != 0 ==> around.pauses == old(around.pauses)
  {
    hide ErrorMeansModuleBusy, ErrorMeansClientGone, NoteSendResult, Reading, Sub32, Contiguous, Taken, MayRetry, AllRetried, AllButLastRetried;
    var mayWait := slot.client.consecutiveSendFailures == 0;
    var startedUs := around.NowUs();
    ghost var started := around.time;
    var sentIndex := 0;
    calls := [];
    ContiguousNone(length, maxChunk);
    NoneRetried(mayWait, started);
    ghost var checked := -1;
    ghost var checkedAt := started;
    while sentIndex < length
      invariant around.chunks == old(around.chunks) + calls && Contiguous(calls, length, maxChunk)
      invariant sentIndex == Taken(calls) <= length
      invariant AllRetried(calls, mayWait, started) && AllButLastRetried(calls, mayWait, started)
      invariant !mayWait ==> around.pauses == old(around.pauses)
      invariant started <= checkedAt <= around.time && checked < MAX_BUSY_SEND_WAIT_US && checked >= -1
      invariant checked >= 0 ==> checked == Sub32(Reading(checkedAt), startedUs) &&
                                 checkedAt < around.time <= checkedAt + 0x8000_0000 - MAX_BUSY_SEND_WAIT_US
      invariant slot.client == old(slot.client)
      decreases length - sentIndex, MAX_BUSY_SEND_WAIT_US - checked
    {
      var chunk := if length - sentIndex > maxChunk then maxChunk else length - sentIndex;
      ghost var before := around.time;
      var taken, errcode := around.SendChunk(sentIndex, chunk);
      ghost var call := Chunk(sentIndex, chunk, taken, errcode, around.time);
      ContiguousNext(calls, call, length, maxChunk);
      AllRetriedNext(calls, call, mayWait, started);
      assert around.chunks == old(around.chunks) + (calls + [call]);
      calls := calls + [call];
      sentIndex := sentIndex + taken;
      if taken == chunk {
        checked := -1;
        checkedAt := around.time;
        continue;
      }
      var nowUs := around.NowUs();
      MayRetryByClock(call, started);
      if mayWait && ErrorMeansModuleBusy(errcode) && Sub32(nowUs, startedUs) < MAX_BUSY_SEND_WAIT_US {
        if checked >= 0 {
          WaitAdvances(started, checkedAt, around.time);
        }
        checked := Sub32(nowUs, startedUs);
        checkedAt := around.time;
        around.Pause();
        continue;
      }
      slot.Note(false, errcode);
      return sentIndex, calls;
    }
    slot.Note(true, 0);
    return sentIndex, calls;
  }
}
