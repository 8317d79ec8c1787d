/** Wrap-around microsecond stamps and the per-client rules of src/libs/ClientTable.cpp: who was
    admitted first, who is old, and whose sends show it gone. */
module ClientClock {
  import opened Common

  type word32 = x: int | 0 <= x < 0x1_0000_0000 witness 0

  /** uint32_t subtraction. */
  function Sub32(a: word32, b: word32): word32 {
    if a >= b then a - b else a - b + 0x1_0000_0000
  }

  /** A uint32_t read as an int32_t. */
  function AsInt32(x: word32): (r: int)
    ensures -0x8000_0000 <= r < 0x8000_0000
  {
    if x < 0x8000_0000 then x else x - 0x1_0000_0000
  }

  function Before(a: word32, b: word32): bool {
    AsInt32(Sub32(a, b)) < 0
  }

  /** The reading of a free-running counter at a true time. */
  function Reading(time: nat): word32 {
    time % 0x1_0000_0000
  }

  /** The signed difference of two readings is the true difference exactly when that fits 31 bits. */
  lemma SignedDifference(a: nat, b: nat)
    ensures AsInt32(Sub32(Reading(a), Reading(b))) == a - b <==> -0x8000_0000 <= a - b < 0x8000_0000
  {
    var qa, qb := a / 0x1_0000_0000, b / 0x1_0000_0000;
    assert a - b == 0x1_0000_0000 * (qa - qb) + Reading(a) - Reading(b);
  }

  // ---------------------------------------------------------------- clients

  datatype Link = Wifi | Usb

  datatype Address = Address(ip: seq<byte>, port: nat)

  /** The part of a client that the table's rules read and write. */
  datatype Client = Client(
    link: Link,
    address: Address,
    identified: bool,
    id: nat,
    lastUserUs: word32,
    lastHeartbeatUs: word32,
    helloWindowStarted: bool,
    helloWindowStartUs: word32,
    helloHeld: bool,
    sendFailed: bool,
    consecutiveSendFailures: byte)

  const NO_ADDRESS := Address([0, 0, 0, 0], 0)

  /** Client{} */
  const FRESH := Client(Wifi, NO_ADDRESS, false, 0, 0, 0, false, 0, false, false, 0)

  const HELLO_WINDOW_US := 5_000_000

  predicate ClientIsOld(c: Client, nowUs: word32) {
    !c.identified && !c.helloHeld && c.helloWindowStarted &&
    AsInt32(Sub32(nowUs, c.helloWindowStartUs)) >= HELLO_WINDOW_US
  }

  /** Against true times less than half the counter's range apart, the window is judged exactly,
      across a wrap of the counter and also when the start is later than the sampled now; a client
      that is identified, held or not started is never old. */
  lemma OldMeansWindowElapsed(c: Client, now: nat, start: nat)
    requires c.helloWindowStartUs == Reading(start) && -0x8000_0000 <= now - start < 0x8000_0000
    ensures ClientIsOld(c, Reading(now))
       <==> !c.identified && !c.helloHeld && c.helloWindowStarted && now - start >= 5_000_000
  {
    SignedDifference(now, start);
  }

  // ---------------------------------------------------------------- liveness

  const MAX_CONSECUTIVE_SEND_FAILURES := 20

  predicate ErrorMeansClientGone(errcode: byte) {
    errcode == 0x14 || errcode == 0x15 || errcode == 0x1A
  }

  predicate ErrorMeansModuleBusy(errcode: byte) {
    errcode == 0x10 || errcode == 0x11 || errcode == 0x12 || errcode == 0x1D
  }

  /** No error code is both, and which codes are which; a wrong link number (0x13) or link type
      (0x19) is neither. */
  lemma ErrorCodes(errcode: byte)
    ensures !(ErrorMeansClientGone(errcode) && ErrorMeansModuleBusy(errcode))
    ensures errcode in {0x13, 0x19} ==> !ErrorMeansClientGone(errcode) && !ErrorMeansModuleBusy(errcode)
    ensures ErrorMeansModuleBusy(errcode) <==> errcode in {0x10, 0x11, 0x12, 0x1D}
    ensures forall c: Client :: !c.sendFailed ==>
              (NoteSendResult(c, SendResult(false, errcode)).sendFailed <==> errcode in {0x14, 0x15, 0x1A})
  {
  }

  datatype SendResult = SendResult(sentEverything: bool, errcode: byte)

  function NoteSendResult(c: Client, r: SendResult): Client {
    if r.sentEverything then c.(consecutiveSendFailures := 0)
    else if ErrorMeansClientGone(r.errcode) then c.(sendFailed := true)
    else if c.consecutiveSendFailures < 0xFF then c.(consecutiveSendFailures := c.consecutiveSendFailures + 1)
    else c
  }

  predicate SendsShowClientGone(c: Client) {
    c.sendFailed || c.consecutiveSendFailures >= MAX_CONSECUTIVE_SEND_FAILURES
  }

  function NoteAll(c: Client, history: seq<SendResult>): Client {
    if history == [] then c else NoteSendResult(NoteAll(c, history[..|history| - 1]), history[|history| - 1])
  }

  /** A failed send whose error is one of the three that say the client is gone. */
  predicate ToldGone(r: SendResult) {
    !r.sentEverything && r.errcode in {0x14, 0x15, 0x1A}
  }

  /** The number of results at the end of a history that all failed. */
  function FailureRun(history: seq<SendResult>): (n: nat)
    ensures n <= |history|
    ensures forall k :: |history| - n <= k < |history| ==> !history[k].sentEverything
    ensures n < |history| ==> history[|history| - 1 - n].sentEverything
  {
    if history == [] || history[|history| - 1].sentEverything then 0
    else 1 + FailureRun(history[..|history| - 1])
  }

  lemma {:induction false} CounterIsRun(c: Client, history: seq<SendResult>)
    requires !c.sendFailed && c.consecutiveSendFailures == 0
    ensures NoteAll(c, history).sendFailed <==> exists k :: 0 <= k < |history| && ToldGone(history[k])
    ensures (forall k :: 0 <= k < |history| ==> !ToldGone(history[k])) ==>
              NoteAll(c, history).consecutiveSendFailures
              == if FailureRun(history) < 0xFF then FailureRun(history) else 0xFF
  {
    if history != [] {
      var n := |history| - 1;
      CounterIsRun(c, history[..n]);
      assert forall k :: 0 <= k < n ==> history[..n][k] == history[k];
    }
  }

  /** Over any history of sends to a fresh client: it is shown gone exactly when some failure said
      so, or the latest twenty sends all failed. */
  lemma GoneMeansToldOrTwentyFailures(c: Client, history: seq<SendResult>)
    requires !c.sendFailed && c.consecutiveSendFailures == 0
    ensures SendsShowClientGone(NoteAll(c, history))
       <==> (exists k :: 0 <= k < |history| && ToldGone(history[k])) ||
            (|history| >= 20 && forall k :: |history| - 20 <= k < |history| ==> !history[k].sentEverything)
  {
    CounterIsRun(c, history);
    var n := FailureRun(history);
    if |history| >= 20 && n < 20 {
      assert history[|history| - 1 - n].sentEverything;
    }
  }

  // ---------------------------------------------------------------- the earliest client

  /** The USB entry sorts before every WiFi index. */
  const USB_SLOT := -1

  predicate AdmittedBefore(tsA: word32, slotA: int, tsB: word32, slotB: int) {
    if tsA != tsB then Before(tsA, tsB) else slotA < slotB
  }

  /** Who is present: WiFi slots by index, the USB entry once its window has started. */
  predicate PresentAt(wifi: seq<Option<Client>>, usb: Option<Client>, slot: int) {
    if slot == USB_SLOT then usb.Some? && usb.value.helloWindowStarted
    else 0 <= slot < |wifi| && wifi[slot].Some?
  }

  function StampAt(wifi: seq<Option<Client>>, usb: Option<Client>, slot: int): word32
    requires PresentAt(wifi, usb, slot)
  {
    if slot == USB_SLOT then usb.value.helloWindowStartUs else wifi[slot].value.helloWindowStartUs
  }

  /** No other present client was admitted before slot. */
  ghost predicate IsEarliest(wifi: seq<Option<Client>>, usb: Option<Client>, slot: int) {
    PresentAt(wifi, usb, slot) &&
    forall j :: PresentAt(wifi, usb, j) && j != slot ==>
      !AdmittedBefore(StampAt(wifi, usb, j), j, StampAt(wifi, usb, slot), slot)
  }

  /** For all stamps whatsoever, of two different clients one was admitted before the other. */
  lemma AdmittedBeforeIsTotal(tsA: word32, slotA: int, tsB: word32, slotB: int)
    requires slotA != slotB
    ensures AdmittedBefore(tsA, slotA, tsB, slotB) || AdmittedBefore(tsB, slotB, tsA, slotA)
  {
  }

  /** At most one client is ever the earliest. */
  lemma AtMostOneEarliest(wifi: seq<Option<Client>>, usb: Option<Client>, i: int, j: int)
    requires IsEarliest(wifi, usb, i) && IsEarliest(wifi, usb, j)
    ensures i == j
  {
    if i != j {
      AdmittedBeforeIsTotal(StampAt(wifi, usb, i), i, StampAt(wifi, usb, j), j);
    }
  }

  /** All present stamps lie in the half of the counter's range that starts at base. */
  ghost predicate FitHalfRange(wifi: seq<Option<Client>>, usb: Option<Client>, base: word32) {
    forall j :: PresentAt(wifi, usb, j) ==> Sub32(StampAt(wifi, usb, j), base) < 0x8000_0000
  }

  /** Somebody is earliest exactly when somebody is present and the present stamps fit half the
      range of the counter, wherever that half starts. */
  lemma EarliestExistsWhen(wifi: seq<Option<Client>>, usb: Option<Client>)
    ensures (exists i :: IsEarliest(wifi, usb, i))
       <==> (exists i :: PresentAt(wifi, usb, i)) && (exists base :: FitHalfRange(wifi, usb, base))
  {
    if i :| IsEarliest(wifi, usb, i) {
      forall j | PresentAt(wifi, usb, j)
        ensures Sub32(StampAt(wifi, usb, j), StampAt(wifi, usb, i)) < 0x8000_0000
      {
        if j != i {
          assert !AdmittedBefore(StampAt(wifi, usb, j), j, StampAt(wifi, usb, i), i);
        }
      }
      assert FitHalfRange(wifi, usb, StampAt(wifi, usb, i));
    }
    if base, i :| PresentAt(wifi, usb, i) && FitHalfRange(wifi, usb, base) {
      var k := LeastOffset(wifi, usb, base, i);
      k := LowestWithStamp(wifi, usb, k);
      forall j | PresentAt(wifi, usb, j) && j != k
        ensures !AdmittedBefore(StampAt(wifi, usb, j), j, StampAt(wifi, usb, k), k)
      {
        OffsetOrder(StampAt(wifi, usb, k), StampAt(wifi, usb, j), base);
      }
      assert IsEarliest(wifi, usb, k);
    }
  }

  /** Within half the range from base, the smaller offset is not later. */
  lemma OffsetOrder(a: word32, b: word32, base: word32)
    requires Sub32(a, base) <= Sub32(b, base) < 0x8000_0000
    ensures !Before(b, a)
  {
  }

  /** A present slot whose stamp lies least far from base. */
  lemma LeastOffset(wifi: seq<Option<Client>>, usb: Option<Client>, base: word32, slot: int) returns (k: int)
    requires PresentAt(wifi, usb, slot)
    ensures PresentAt(wifi, usb, k)
    ensures forall j :: PresentAt(wifi, usb, j) ==>
              Sub32(StampAt(wifi, usb, k), base) <= Sub32(StampAt(wifi, usb, j), base)
    decreases Sub32(StampAt(wifi, usb, slot), base)
  {
    if j :| PresentAt(wifi, usb, j) && Sub32(StampAt(wifi, usb, j), base) < Sub32(StampAt(wifi, usb, slot), base) {
      k := LeastOffset(wifi, usb, base, j);
    } else {
      k := slot;
    }
  }

  /** The first slot, in tie-break order, with the same stamp as slot. */
  lemma LowestWithStamp(wifi: seq<Option<Client>>, usb: Option<Client>, slot: int) returns (k: int)
    requires PresentAt(wifi, usb, slot)
    ensures PresentAt(wifi, usb, k) && StampAt(wifi, usb, k) == StampAt(wifi, usb, slot)
    ensures forall j :: PresentAt(wifi, usb, j) && StampAt(wifi, usb, j) == StampAt(wifi, usb, slot) ==> k <= j
    decreases slot
  {
    if j :| PresentAt(wifi, usb, j) && StampAt(wifi, usb, j) == StampAt(wifi, usb, slot) && j < slot {
      k := LowestWithStamp(wifi, usb, j);
    } else {
      k := slot;
    }
  }

  /** The promise that exactly one present client is earliest fails when the stamps go round the
      counter: here each of three clients was admitted before the next. */
  lemma NobodyEarliest(a: Client, b: Client, c: Client)
    requires a.helloWindowStartUs == 0 && b.helloWindowStartUs == 0x6000_0000 && c.helloWindowStartUs == 0xC000_0000
    ensures forall i :: !IsEarliest([Some(a), Some(b), Some(c)], None, i)
  {
    var wifi: seq<Option<Client>>, usb: Option<Client> := [Some(a), Some(b), Some(c)], None;
    assert PresentAt(wifi, usb, 0) && PresentAt(wifi, usb, 1) && PresentAt(wifi, usb, 2);
    assert AdmittedBefore(0, 0, 0x6000_0000, 1);
    assert AdmittedBefore(0x6000_0000, 1, 0xC000_0000, 2);
    assert AdmittedBefore(0xC000_0000, 2, 0, 0);
  }

  /** Admission at a true time, ties broken by slot. */
  predicate AdmittedFirst(timeA: nat, slotA: int, timeB: nat, slotB: int) {
    timeA < timeB || (timeA == timeB && slotA < slotB)
  }

  /** While admissions lie less than half the counter's range apart, the wrapped comparison is the
      order of true admission times. */
  lemma AdmittedBeforeIsTrueOrder(a: nat, slotA: int, b: nat, slotB: int)
    requires -0x8000_0000 < a - b < 0x8000_0000
    ensures AdmittedBefore(Reading(a), slotA, Reading(b), slotB) <==> AdmittedFirst(a, slotA, b, slotB)
  {
    SignedDifference(a, b);
  }

  /** The election by wrapped stamps elects the client truly admitted first. */
  lemma EarliestIsTrulyFirst(wifi: seq<Option<Client>>, usb: Option<Client>, times: int -> nat, slot: int)
    requires PresentAt(wifi, usb, slot)
    requires forall j :: PresentAt(wifi, usb, j) ==> StampAt(wifi, usb, j) == Reading(times(j))
    requires forall i, j :: PresentAt(wifi, usb, i) && PresentAt(wifi, usb, j) ==> times(i) - times(j) < 0x8000_0000
    ensures IsEarliest(wifi, usb, slot)
       <==> forall j :: PresentAt(wifi, usb, j) && j != slot ==> AdmittedFirst(times(slot), slot, times(j), j)
  {
    forall j | PresentAt(wifi, usb, j) && j != slot
      ensures AdmittedBefore(StampAt(wifi, usb, j), j, StampAt(wifi, usb, slot), slot)
         <==> !AdmittedFirst(times(slot), slot, times(j), j)
    {
      assert times(slot) - times(j) < 0x8000_0000 && times(j) - times(slot) < 0x8000_0000;
      AdmittedBeforeIsTrueOrder(times(j), j, times(slot), slot);
    }
  }
}
