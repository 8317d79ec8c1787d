/** Whole calls of Packet_GetFromGDB and Packet_SendToGDB over a script of arriving characters:
    what is answered, what is accepted, and what a retransmission repairs. */
module PacketSessions {
  import opened Common
  import opened Hex
  import opened PacketProtocol

  /** One character from GDB; waiting says whether it is already in the receive queue when the
      stub polls for more data just before reading it. */
  datatype Arrival = Arrival(ch: byte, waiting: bool)

  function Chars(script: seq<Arrival>): (cs: seq<byte>)
    ensures |cs| == |script| && forall i :: 0 <= i < |cs| ==> cs[i] == script[i].ch
  {
    seq(|script|, i requires 0 <= i < |script| => script[i].ch)
  }

  /** Platform_CommHasReceiveData at position i. */
  predicate HasReceiveData(script: seq<Arrival>, i: nat) {
    i < |script| && script[i].waiting
  }

  datatype Reception = Blocked | Complete(frame: Frame, st: Receiver, pos: nat)

  /** The next frame, read from position i on; Blocked when the script runs out first. */
  function NextFrame(capacity: nat, st: Receiver, script: seq<Arrival>, i: nat): (r: Reception)
    requires i <= |script|
    ensures r.Complete? ==> i < r.pos <= |script| && (r.st.Hunting? || r.st == Body([], 0))
    decreases |script| - i
  {
    if i == |script| then Blocked
    else
      var (st', f) := Step(capacity, st, script[i].ch);
      if f.Some? then Complete(f.value, st', i + 1) else NextFrame(capacity, st', script, i + 1)
  }

  /** What one call of Packet_GetFromGDB does: the answers sent and, unless it is still waiting
      for characters, the payload accepted and where it stopped reading. */
  datatype Session =
    | Waiting(sent: seq<byte>)
    | Accepted(sent: seq<byte>, payload: seq<byte>, pos: nat)

  function Answered(answer: byte, s: Session): Session {
    s.(sent := [answer] + s.sent)
  }

  /** A frame with more data queued behind it is dropped unanswered; otherwise it is accepted
      with '+' or refused with '-'. */
  function Receive(capacity: nat, st: Receiver, script: seq<Arrival>, i: nat): (s: Session)
    requires i <= |script|
    ensures s.Accepted? ==> i < s.pos <= |script|
    decreases |script| - i
  {
    match NextFrame(capacity, st, script, i)
    case Blocked => Waiting([])
    case Complete(f, st', j) =>
      if HasReceiveData(script, j) then Receive(capacity, st', script, j)
      else if f.Valid() then Accepted([PLUS], f.payload, j)
      else Answered(MINUS, Receive(capacity, st', script, j))
  }

  lemma BodyStep(capacity: nat, data: seq<byte>, sum: byte, script: seq<Arrival>, i: nat)
    requires i < |script|
    ensures var c := script[i].ch;
            NextFrame(capacity, Body(data, sum), script, i)
            == if c == HASH then NextFrame(capacity, Digit1(data, sum), script, i + 1)
               else if c == DOLLAR || |data| >= capacity then NextFrame(capacity, Opened(c), script, i + 1)
               else if c == BRACE then NextFrame(capacity, Escaped(data, Add(sum, c)), script, i + 1)
               else NextFrame(capacity, Body(data + [c], Add(sum, c)), script, i + 1)
  {
  }

  lemma EscapedStep(capacity: nat, data: seq<byte>, sum: byte, script: seq<Arrival>, i: nat)
    requires i < |script|
    ensures var c := script[i].ch;
            NextFrame(capacity, Escaped(data, sum), script, i)
            == if c == HASH then NextFrame(capacity, Digit1(data, sum), script, i + 1)
               else if c == DOLLAR then NextFrame(capacity, Opened(c), script, i + 1)
               else NextFrame(capacity, Body(data + [FlipCase(c)], Add(sum, c)), script, i + 1)
  {
  }

  lemma DigitSteps(capacity: nat, data: seq<byte>, sum: byte, script: seq<Arrival>, i: nat)
    requires i <= |script|
    ensures NextFrame(capacity, Digit1(data, sum), script, i)
            == if i + 2 <= |script| then
                 var hi, lo := script[i].ch, script[i + 1].ch;
                 Complete(Frame(data, sum, Expected(sum, hi, lo)), Opened(lo), i + 2)
               else Blocked
  {
    if i + 1 <= |script| {
      var mid := Digit2(data, sum, script[i].ch);
      assert NextFrame(capacity, Digit1(data, sum), script, i) == NextFrame(capacity, mid, script, i + 1);
    }
  }

  lemma HuntingStep(capacity: nat, script: seq<Arrival>, i: nat)
    requires i < |script|
    ensures NextFrame(capacity, Hunting, script, i) == NextFrame(capacity, Opened(script[i].ch), script, i + 1)
  {
  }

  lemma NothingMore(capacity: nat, st: Receiver, script: seq<Arrival>)
    ensures NextFrame(capacity, st, script, |script|) == Blocked
  {
  }

  // ---------------------------------------------------------------- sessions and runs

  lemma {:induction false} NextFrameIsRun(capacity: nat, st: Receiver, script: seq<Arrival>, i: nat)
    requires i <= |script|
    ensures var r := NextFrame(capacity, st, script, i);
            if r.Complete? then Run(capacity, st, Chars(script[i..r.pos])) == (r.st, [r.frame])
            else Run(capacity, st, Chars(script[i..])).1 == []
    decreases |script| - i
  {
    hide Step, Run;
    if i == |script| {
      assert Chars(script[i..]) == [];
      RunEmpty(capacity, st);
    } else {
      var c := script[i].ch;
      var (st', f) := Step(capacity, st, c);
      var r := NextFrame(capacity, st, script, i);
      var end := if r.Complete? then r.pos else |script|;
      assert Chars(script[i..end]) == [c] + Chars(script[i + 1..end]);
      assert script[i..end] == script[i..] || r.Complete?;
      RunHead(capacity, st, c, Chars(script[i + 1..end]));
      if f.Some? {
        assert Chars(script[i + 1..end]) == [];
        RunEmpty(capacity, st');
        assert [f.value] + [] == [f.value];
      } else {
        NextFrameIsRun(capacity, st', script, i + 1);
        assert script[i + 1..end] == script[i + 1..] || r.Complete?;
      }
    }
  }

  lemma RunEmpty(capacity: nat, st: Receiver)
    ensures Run(capacity, st, []) == (st, [])
  {
  }

  /** Characters that complete no frame may be read ahead. */
  lemma {:induction false} SkipQuiet(capacity: nat, st: Receiver, script: seq<Arrival>, i: nat, j: nat)
    requires i <= j <= |script| && Run(capacity, st, Chars(script[i..j])).1 == []
    ensures NextFrame(capacity, st, script, i)
         == NextFrame(capacity, Run(capacity, st, Chars(script[i..j])).0, script, j)
    decreases j - i
  {
    hide Step, Run;
    if i == j {
      assert Chars(script[i..j]) == [];
      RunEmpty(capacity, st);
    } else {
      var c := script[i].ch;
      assert Chars(script[i..j]) == [c] + Chars(script[i + 1..j]);
      RunHead(capacity, st, c, Chars(script[i + 1..j]));
      SkipQuiet(capacity, Step(capacity, st, c).0, script, i + 1, j);
    }
  }

  // ---------------------------------------------------------------- what is answered

  /** All answers but the last are '-'; the last is '+' exactly when a payload was accepted. */
  ghost predicate Answers(s: Session) {
    match s
    case Waiting(sent) => forall k :: 0 <= k < |sent| ==> sent[k] == '-' as int
    case Accepted(sent, _, _) =>
      sent != [] && sent[|sent| - 1] == '+' as int && forall k :: 0 <= k < |sent| - 1 ==> sent[k] == '-' as int
  }

  lemma {:induction false} AnswersAreNaksThenOneAck(capacity: nat, st: Receiver, script: seq<Arrival>, i: nat)
    requires i <= |script|
    ensures Answers(Receive(capacity, st, script, i))
    decreases |script| - i
  {
    var r := NextFrame(capacity, st, script, i);
    if r.Complete? && (HasReceiveData(script, r.pos) || !r.frame.Valid()) {
      AnswersAreNaksThenOneAck(capacity, r.st, script, r.pos);
    }
  }

  // ---------------------------------------------------------------- what is accepted

  /** text ends in a frame: '$', a raw body, '#' and two hex digits spelling the total of the body
      modulo 256. */
  ghost predicate EndsInFrame(text: seq<byte>, raw: seq<byte>, hi: byte, lo: byte) {
    |raw| + 4 <= |text| && text[|text| - |raw| - 4..] == ['$' as int] + raw + ['#' as int, hi, lo] &&
    '$' as int !in raw && '#' as int !in raw && IsHexDigit(hi) && IsHexDigit(lo) &&
    16 * HexCharToNibble(hi) + HexCharToNibble(lo) == Total(raw) % 256
  }

  /** text ends in a frame whose body unescapes to payload. */
  ghost predicate EndsInFrameFor(text: seq<byte>, payload: seq<byte>) {
    exists raw, hi, lo :: EndsInFrame(text, raw, hi, lo) && payload == Unescape(raw).0
  }

  /** Only genuine frames are accepted, and the payload handed on is the body unescaped. */
  lemma {:induction false} AcceptedIsGenuine(capacity: nat, script: seq<Arrival>, start: nat, i: nat, st: Receiver)
    returns (raw: seq<byte>, hi: byte, lo: byte)
    requires start <= i <= |script| && st == Run(capacity, Hunting, Chars(script[start..i])).0
    requires Receive(capacity, st, script, i).Accepted?
    ensures var s := Receive(capacity, st, script, i);
            EndsInFrame(Chars(script[start..s.pos]), raw, hi, lo) && s.payload == Unescape(raw).0
    decreases |script| - i
  {
    hide Run, NextFrame, EndsInFrame, Unescape, Chars;
    var r := NextFrame(capacity, st, script, i);
    if HasReceiveData(script, r.pos) || !r.frame.Valid() {
      RunsOn(capacity, script, start, i, st);
      raw, hi, lo := AcceptedIsGenuine(capacity, script, start, r.pos, r.st);
    } else {
      raw, hi, lo := ValidIsGenuine(capacity, script, start, i, st);
    }
  }

  /** The state behind a frame is that of the whole text so far. */
  lemma RunsOn(capacity: nat, script: seq<Arrival>, start: nat, i: nat, st: Receiver)
    requires start <= i <= |script| && st == Run(capacity, Hunting, Chars(script[start..i])).0
    requires NextFrame(capacity, st, script, i).Complete?
    ensures var r := NextFrame(capacity, st, script, i);
            r.st == Run(capacity, Hunting, Chars(script[start..r.pos])).0
  {
    hide Run, NextFrame;
    var r := NextFrame(capacity, st, script, i);
    NextFrameIsRun(capacity, st, script, i);
    assert Chars(script[start..r.pos]) == Chars(script[start..i]) + Chars(script[i..r.pos]);
    RunConcat(capacity, Hunting, Chars(script[start..i]), Chars(script[i..r.pos]));
  }

  lemma ValidIsGenuine(capacity: nat, script: seq<Arrival>, start: nat, i: nat, st: Receiver)
    returns (raw: seq<byte>, hi: byte, lo: byte)
    requires start <= i <= |script| && st == Run(capacity, Hunting, Chars(script[start..i])).0
    requires NextFrame(capacity, st, script, i).Complete? && NextFrame(capacity, st, script, i).frame.Valid()
    ensures var r := NextFrame(capacity, st, script, i);
            EndsInFrame(Chars(script[start..r.pos]), raw, hi, lo) && r.frame.payload == Unescape(raw).0
  {
    hide Run, Step, NextFrame, EndsInFrame, Unescape;
    var r := NextFrame(capacity, st, script, i);
    LastCompletes(capacity, st, script, i);
    var before, last := Chars(script[start..r.pos - 1]), script[r.pos - 1].ch;
    assert before == Chars(script[start..i]) + Chars(script[i..r.pos - 1]);
    RunConcat(capacity, Hunting, Chars(script[start..i]), Chars(script[i..r.pos - 1]));
    assert Chars(script[start..r.pos]) == before + [last];
    raw, hi, lo := CompletedIsGenuine(capacity, before, last);
  }

  /** NextFrame stops on the very character that completes the frame. */
  lemma {:induction false} LastCompletes(capacity: nat, st: Receiver, script: seq<Arrival>, i: nat)
    requires i <= |script| && NextFrame(capacity, st, script, i).Complete?
    ensures var r := NextFrame(capacity, st, script, i);
            Run(capacity, st, Chars(script[i..r.pos - 1])).1 == [] &&
            Step(capacity, Run(capacity, st, Chars(script[i..r.pos - 1])).0, script[r.pos - 1].ch) == (r.st, Some(r.frame))
    decreases |script| - i
  {
    hide Step, Run;
    var r := NextFrame(capacity, st, script, i);
    var c := script[i].ch;
    var (st', f) := Step(capacity, st, c);
    if f.Some? {
      assert Chars(script[i..r.pos - 1]) == [];
      RunEmpty(capacity, st);
    } else {
      LastCompletes(capacity, st', script, i + 1);
      assert Chars(script[i..r.pos - 1]) == [c] + Chars(script[i + 1..r.pos - 1]);
      RunHead(capacity, st, c, Chars(script[i + 1..r.pos - 1]));
    }
  }

  lemma CompletedIsGenuine(capacity: nat, before: seq<byte>, lo: byte)
    returns (raw: seq<byte>, hi: byte, last: byte)
    requires Step(capacity, Run(capacity, Hunting, before).0, lo).1.Some?
    requires Step(capacity, Run(capacity, Hunting, before).0, lo).1.value.Valid()
    ensures last == lo && EndsInFrame(before + [lo], raw, hi, lo)
    ensures Step(capacity, Run(capacity, Hunting, before).0, lo).1.value.payload == Unescape(raw).0
  {
    var st := Run(capacity, Hunting, before).0;
    var k := StateIsExplained(capacity, before);
    hide Run, Unescape, Sum, HexCharToNibble, FlipCase;
    raw, hi, last := before[k + 1..|before| - 2], st.hi, lo;
    SumIsTotal(raw);
    assert (before + [lo])[k..] == [DOLLAR] + raw + [HASH, hi, lo];
  }

  // ---------------------------------------------------------------- what a retransmission repairs

  /** script carries text from position i. */
  ghost predicate Carries(script: seq<Arrival>, i: nat, text: seq<byte>) {
    i + |text| <= |script| && Chars(script[i..i + |text|]) == text
  }

  lemma CarriesInit(script: seq<Arrival>, i: nat, text: seq<byte>, c: byte)
    requires Carries(script, i, text + [c])
    ensures i + |text| < |script| && Carries(script, i, text) && script[i + |text|].ch == c
  {
    var cs := Chars(script[i..i + |text| + 1]);
    assert Chars(script[i..i + |text|]) == cs[..|text|];
    assert cs[|text|] == c;
  }

  lemma CarriesTail(script: seq<Arrival>, i: nat, c: byte, rest: seq<byte>)
    requires Carries(script, i, [c] + rest)
    ensures i + 1 + |rest| <= |script| && script[i].ch == c && Carries(script, i + 1, rest)
  {
    var cs := Chars(script[i..i + 1 + |rest|]);
    assert cs[0] == c;
    assert Chars(script[i + 1..i + 1 + |rest|]) == cs[1..];
  }

  /** A quiet stretch and then the character that completes a frame. */
  lemma NextFrameAfter(capacity: nat, st: Receiver, script: seq<Arrival>, i: nat, text: seq<byte>, c: byte)
    requires Carries(script, i, text + [c])
    requires Run(capacity, st, text).1 == [] && Step(capacity, Run(capacity, st, text).0, c).1.Some?
    ensures var (st', f) := Step(capacity, Run(capacity, st, text).0, c);
            NextFrame(capacity, st, script, i) == Complete(f.value, st', i + |text| + 1)
  {
    hide Step, Run, NextFrame, Carries;
    CarriesInit(script, i, text, c);
    QuietText(capacity, st, script, i, text);
    OneStep(capacity, Run(capacity, st, text).0, script, i + |text|);
  }

  lemma QuietText(capacity: nat, st: Receiver, script: seq<Arrival>, i: nat, text: seq<byte>)
    requires i + |text| <= |script| && Carries(script, i, text) && Run(capacity, st, text).1 == []
    ensures NextFrame(capacity, st, script, i)
         == NextFrame(capacity, Run(capacity, st, text).0, script, i + |text|)
  {
    hide Step, Run, NextFrame;
    SkipQuiet(capacity, st, script, i, i + |text|);
  }

  lemma OneStep(capacity: nat, st: Receiver, script: seq<Arrival>, i: nat)
    requires i < |script|
    ensures var (st', f) := Step(capacity, st, script[i].ch);
            NextFrame(capacity, st, script, i)
            == if f.Some? then Complete(f.value, st', i + 1) else NextFrame(capacity, st', script, i + 1)
  {
    hide Step;
  }

  lemma NextFrameFromBody(capacity: nat, script: seq<Arrival>, i: nat, raw: seq<byte>, hi: byte, lo: byte)
    requires Carries(script, i, raw + [HASH, hi, lo])
    requires IsRawBody(raw) && lo != DOLLAR && Needs(raw) <= capacity
    ensures NextFrame(capacity, Body([], 0), script, i)
         == Complete(Frame(Unescape(raw).0, Sum(raw), Expected(Sum(raw), hi, lo)), Hunting, i + |raw| + 3)
  {
    hide Run, Unescape, Sum, Expected, Needs, IsRawBody, NextFrame, Carries;
    var text := raw + [HASH, hi];
    assert text + [lo] == raw + [HASH, hi, lo];
    RunToLastDigit(capacity, raw, hi);
    NextFrameAfter(capacity, Body([], 0), script, i, text, lo);
  }

  /** From any state in which a '$' opens a frame. */
  lemma NextFrameFromQuiet(capacity: nat, st: Receiver, script: seq<Arrival>, i: nat, raw: seq<byte>, hi: byte, lo: byte)
    requires !st.Digit1? && !st.Digit2?
    requires Carries(script, i, [DOLLAR] + raw + [HASH, hi, lo])
    requires IsRawBody(raw) && lo != DOLLAR && Needs(raw) <= capacity
    ensures NextFrame(capacity, st, script, i)
         == Complete(Frame(Unescape(raw).0, Sum(raw), Expected(Sum(raw), hi, lo)), Hunting, i + |raw| + 4)
  {
    hide Run, Unescape, Sum, Expected, Needs, IsRawBody, NextFrame, Carries;
    var tail := raw + [HASH, hi, lo];
    assert [DOLLAR] + tail == [DOLLAR] + raw + [HASH, hi, lo];
    CarriesTail(script, i, DOLLAR, tail);
    NextFrameFromBody(capacity, script, i + 1, raw, hi, lo);
    OpenFrame(capacity, st, script, i);
  }

  lemma OpenFrame(capacity: nat, st: Receiver, script: seq<Arrival>, i: nat)
    requires !st.Digit1? && !st.Digit2? && i < |script| && script[i].ch == DOLLAR
    ensures NextFrame(capacity, st, script, i) == NextFrame(capacity, Body([], 0), script, i + 1)
  {
  }

  /** Encode(p) taken apart, with what makes it receivable. */
  lemma EncodeParts(p: seq<byte>) returns (raw: seq<byte>, hi: byte, lo: byte)
    ensures Encode(p) == [DOLLAR] + raw + [HASH, hi, lo]
    ensures IsRawBody(raw) && lo != DOLLAR && hi != DOLLAR && Needs(raw) == |p| && Unescape(raw).0 == p
    ensures raw == Escape(p) && Expected(Sum(raw), hi, lo) == Sum(raw)
  {
    raw := Escape(p);
    var hex := ByteAsHex(Sum(raw));
    hi, lo := hex[0], hex[1];
    UnescapeUndoesEscape(p);
    ByteHexRoundTrip(Sum(raw));
    NotDollar(hi);
    NotDollar(lo);
    assert Encode(p) == [DOLLAR] + raw + [HASH] + hex;
  }

  /** No '$' behind the first: a receiver hunting inside a frame sees only noise. */
  lemma EncodeTail(p: seq<byte>) returns (tail: seq<byte>)
    ensures Encode(p) == [DOLLAR] + tail && |tail| >= 3 && DOLLAR !in tail
  {
    hide Encode, Unescape, Sum, Expected, Needs, Escape;
    var raw, hi, lo := EncodeParts(p);
    NotDollar(DOLLAR);
    tail := raw + [HASH, hi, lo];
    assert [DOLLAR] + tail == [DOLLAR] + raw + [HASH, hi, lo];
  }

  /** A frame alone in the queue, from any state in which a '$' opens a frame. */
  lemma GoodFrameIsAccepted(capacity: nat, st: Receiver, script: seq<Arrival>, i: nat, p: seq<byte>)
    requires !st.Digit1? && !st.Digit2? && |p| <= capacity
    requires Carries(script, i, Encode(p)) && !HasReceiveData(script, i + |Encode(p)|)
    ensures Receive(capacity, st, script, i) == Accepted([PLUS], p, i + |Encode(p)|)
  {
    hide NextFrame, Encode, Step, Unescape, Sum, Expected, Needs, Escape;
    var raw, hi, lo := EncodeParts(p);
    NextFrameFromQuiet(capacity, st, script, i, raw, hi, lo);
  }

  /** Any frame whose body fits, alone in the queue, is accepted if and only if its two digits spell
      the total of the body modulo 256, in either case; otherwise it is answered with '-'. */
  lemma AcceptedWhenDigitsSpellTotal(capacity: nat, st: Receiver, script: seq<Arrival>, i: nat,
                                     raw: seq<byte>, hi: byte, lo: byte)
    requires !st.Digit1? && !st.Digit2? && i + |raw| + 4 <= |script|
    requires IsRawBody(raw) && lo != DOLLAR && Needs(raw) <= capacity
    requires Carries(script, i, [DOLLAR] + raw + [HASH, hi, lo]) && !HasReceiveData(script, i + |raw| + 4)
    ensures var h, l, j := HexCharToNibble(hi), HexCharToNibble(lo), i + |raw| + 4;
            Receive(capacity, st, script, i)
            == if h >= 0 && l >= 0 && 16 * h + l == Total(raw) % 256 then Accepted(['+' as int], Unescape(raw).0, j)
               else Answered('-' as int, Receive(capacity, Hunting, script, j))
  {
    hide NextFrame, Step, Unescape, Sum, Needs, HexCharToNibble, IsRawBody, Carries, Total;
    NextFrameFromQuiet(capacity, st, script, i, raw, hi, lo);
    SumIsTotal(raw);
  }

  /** A frame damaged inside its body is answered with '-', and its retransmission is accepted. */
  lemma DamagedFrameIsRepaired(capacity: nat, st: Receiver, script: seq<Arrival>, i: nat,
                               damaged: seq<byte>, hi: byte, lo: byte, p: seq<byte>)
    requires !st.Digit1? && !st.Digit2? && |p| <= capacity
    requires IsRawBody(damaged) && lo != DOLLAR && Needs(damaged) <= capacity
    requires IsHexDigit(hi) && IsHexDigit(lo) ==> HexAsByte(hi, lo) != Sum(damaged)
    requires Carries(script, i, [DOLLAR] + damaged + [HASH, hi, lo])
    requires var j := i + |damaged| + 4;
             !HasReceiveData(script, j) && Carries(script, j, Encode(p)) &&
             !HasReceiveData(script, j + |Encode(p)|)
    ensures Receive(capacity, st, script, i)
         == Accepted([MINUS, PLUS], p, i + |damaged| + 4 + |Encode(p)|)
  {
    hide NextFrame, Encode, Step, Unescape, Sum, Needs, HexCharToNibble, IsRawBody;
    NextFrameFromQuiet(capacity, st, script, i, damaged, hi, lo);
    GoodFrameIsAccepted(capacity, Hunting, script, i + |damaged| + 4, p);
    assert [MINUS] + [PLUS] == [MINUS, PLUS];
  }

  /** Whatever state earlier noise left the receiver in, two copies of a frame deliver it. The first
      is taken unless the receiver was waiting for a first checksum digit or the second is already
      queued behind it. */
  lemma TwoCopiesDeliver(capacity: nat, st: Receiver, script: seq<Arrival>, i: nat, p: seq<byte>)
    requires |p| <= capacity
    requires Carries(script, i, Encode(p)) && Carries(script, i + |Encode(p)|, Encode(p))
    requires !HasReceiveData(script, i + 2 * |Encode(p)|)
    ensures var s, n := Receive(capacity, st, script, i), |Encode(p)|;
            s.Accepted? && s.payload == p &&
            s.pos == i + (if st.Digit1? || HasReceiveData(script, i + n) then 2 * n else n)
  {
    hide NextFrame, Encode, Step, Unescape, Sum, Expected, Needs, Escape;
    var j := i + |Encode(p)|;
    GoodFrameIsAccepted(capacity, Hunting, script, j, p);
    if st.Digit1? {
      SwallowedFrame(capacity, st, script, i, p);
    } else if st.Digit2? {
      CompletedByDollar(capacity, st, script, i, p);
    } else {
      FrameIsCompleted(capacity, st, script, i, p);
    }
  }

  /** A frame is read whole, whatever is queued behind it. */
  lemma FrameIsCompleted(capacity: nat, st: Receiver, script: seq<Arrival>, i: nat, p: seq<byte>)
    requires !st.Digit1? && !st.Digit2? && |p| <= capacity && Carries(script, i, Encode(p))
    ensures NextFrame(capacity, st, script, i) == Complete(Good(p), Hunting, i + |Encode(p)|)
  {
    hide NextFrame, Encode, Step, Unescape, Sum, Expected, Needs, Escape;
    var raw, hi, lo := EncodeParts(p);
    NextFrameFromQuiet(capacity, st, script, i, raw, hi, lo);
  }

  /** Waiting for a second digit, the frame's '$' completes a bad frame and opens the good one. */
  lemma CompletedByDollar(capacity: nat, st: Receiver, script: seq<Arrival>, i: nat, p: seq<byte>)
    requires st.Digit2? && |p| <= capacity && Carries(script, i, Encode(p))
    ensures var s, j := Receive(capacity, st, script, i), i + |Encode(p)|;
            if HasReceiveData(script, j) then
              s == (var rest := Receive(capacity, Hunting, script, j);
                    if HasReceiveData(script, i + 1) then rest else Answered(MINUS, rest))
            else s.Accepted? && s.payload == p && s.pos == j
  {
    hide Encode, Unescape, Sum, Needs, Escape;
    var raw, hi, lo := EncodeParts(p);
    assert [DOLLAR] + (raw + [HASH, hi, lo]) == Encode(p);
    CarriesTail(script, i, DOLLAR, raw + [HASH, hi, lo]);
    NotDollar(DOLLAR);
    var bad := Frame(st.data, st.sum, Expected(st.sum, st.hi, DOLLAR));
    assert NextFrame(capacity, st, script, i) == Complete(bad, Body([], 0), i + 1);
    NextFrameFromBody(capacity, script, i + 1, raw, hi, lo);
  }

  /** From just after a '#', the frame's '$' is read as a checksum digit and the frame is lost. */
  lemma SwallowedFrame(capacity: nat, st: Receiver, script: seq<Arrival>, i: nat, p: seq<byte>)
    requires st.Digit1? && i + |Encode(p)| <= |script| && Carries(script, i, Encode(p))
    ensures Receive(capacity, st, script, i)
         == (var rest := Receive(capacity, Hunting, script, i + |Encode(p)|);
             if HasReceiveData(script, i + 2) then rest else Answered(MINUS, rest))
  {
    hide *;
    var tail := EncodeTail(p);
    CarriesTail(script, i, DOLLAR, tail);
    assert tail == [tail[0]] + tail[1..];
    CarriesTail(script, i + 1, tail[0], tail[1..]);
    SwallowedDollar(capacity, st, script, i);
    NoiseIsSkipped(capacity, script, i + 2, tail[1..]);
  }

  lemma NoiseIsSkipped(capacity: nat, script: seq<Arrival>, i: nat, noise: seq<byte>)
    requires i + |noise| <= |script| && Carries(script, i, noise) && DOLLAR !in noise
    ensures Receive(capacity, Hunting, script, i) == Receive(capacity, Hunting, script, i + |noise|)
  {
    hide NextFrame, Run, Carries;
    RunNoise(capacity, noise);
    QuietText(capacity, Hunting, script, i, noise);
  }

  lemma SwallowedDollar(capacity: nat, st: Receiver, script: seq<Arrival>, i: nat)
    requires st.Digit1? && i + 2 <= |script| && script[i].ch == DOLLAR && script[i + 1].ch != DOLLAR
    ensures Receive(capacity, st, script, i)
         == (var rest := Receive(capacity, Hunting, script, i + 2);
             if HasReceiveData(script, i + 2) then rest else Answered(MINUS, rest))
  {
    NotDollar(DOLLAR);
    hide HexCharToNibble;
    var mid := Digit2(st.data, st.sum, DOLLAR);
    assert NextFrame(capacity, st, script, i) == NextFrame(capacity, mid, script, i + 1);
    var bad := Frame(st.data, st.sum, Expected(st.sum, DOLLAR, script[i + 1].ch));
    assert NextFrame(capacity, mid, script, i + 1) == Complete(bad, Hunting, i + 2);
  }

  lemma OversizedIsSkipped(capacity: nat, st: Receiver, script: seq<Arrival>, i: nat,
                           raw: seq<byte>, hi: byte, lo: byte)
    requires !st.Digit1? && !st.Digit2? && i + |raw| + 4 <= |script|
    requires Carries(script, i, [DOLLAR] + raw + [HASH, hi, lo])
    requires IsRawBody(raw) && hi != DOLLAR && lo != DOLLAR && Needs(raw) > capacity
    ensures NextFrame(capacity, st, script, i) == NextFrame(capacity, Hunting, script, i + |raw| + 4)
  {
    hide NextFrame, Run, Carries, Needs, Unescape;
    var tail := raw + [HASH, hi, lo];
    assert [DOLLAR] + tail == [DOLLAR] + raw + [HASH, hi, lo];
    CarriesTail(script, i, DOLLAR, tail);
    OpenFrame(capacity, st, script, i);
    RunRaw(capacity, raw);
    RunQuiet(capacity, Body([], 0), raw, [HASH, hi, lo]);
    RunNoise(capacity, [HASH, hi, lo]);
    QuietText(capacity, Body([], 0), script, i + 1, tail);
  }

  /** A frame whose body does not fit is dropped without any answer. */
  lemma OversizedFrameIsIgnored(capacity: nat, st: Receiver, script: seq<Arrival>, i: nat,
                                raw: seq<byte>, hi: byte, lo: byte)
    requires !st.Digit1? && !st.Digit2? && i + |raw| + 4 <= |script|
    requires Carries(script, i, [DOLLAR] + raw + [HASH, hi, lo])
    requires IsRawBody(raw) && hi != DOLLAR && lo != DOLLAR && Needs(raw) > capacity
    ensures Receive(capacity, st, script, i) == Receive(capacity, Hunting, script, i + |raw| + 4)
  {
    hide NextFrame, Carries, Needs;
    OversizedIsSkipped(capacity, st, script, i, raw, hi, lo);
  }

  /** Where a '$' opens a frame, the frame is completed by its own last digit if and only if its
      body fits. */
  lemma FrameCompletesWhenItFits(capacity: nat, st: Receiver, script: seq<Arrival>, i: nat,
                                 raw: seq<byte>, hi: byte, lo: byte)
    requires !st.Digit1? && !st.Digit2? && i + |raw| + 4 <= |script|
    requires Carries(script, i, [DOLLAR] + raw + [HASH, hi, lo])
    requires IsRawBody(raw) && hi != DOLLAR && lo != DOLLAR
    ensures var r := NextFrame(capacity, st, script, i);
            (r.Complete? && r.pos == i + |raw| + 4) <==> Needs(raw) <= capacity
  {
    hide NextFrame, Run, Carries, Needs, Unescape, Sum, Expected, IsRawBody;
    if Needs(raw) <= capacity {
      NextFrameFromQuiet(capacity, st, script, i, raw, hi, lo);
    } else {
      OversizedIsSkipped(capacity, st, script, i, raw, hi, lo);
    }
  }

  /** A receive that starts hunting just behind a frame's '$' goes as if it began behind the frame. */
  lemma CancellingFrameIsSkipped(capacity: nat, script: seq<Arrival>, i: nat, p: seq<byte>)
    requires i + |Encode(p)| <= |script| && Carries(script, i, Encode(p))
    ensures Receive(capacity, Hunting, script, i + 1) == Receive(capacity, Hunting, script, i + |Encode(p)|)
  {
    hide *;
    var tail := EncodeTail(p);
    CarriesTail(script, i, DOLLAR, tail);
    NoiseIsSkipped(capacity, script, i + 1, tail);
  }

  // ---------------------------------------------------------------- the stub's own frames

  lemma {:induction false} PlainBody(p: seq<byte>)
    requires BRACE !in p
    ensures Unescape(p) == (p, false)
  {
    if p != [] {
      PlainBody(p[..|p| - 1]);
      assert p[..|p| - 1] + [p[|p| - 1]] == p;
    }
  }

  lemma {:induction false} FrameOrigin(capacity: nat, cs: seq<byte>, f: Frame) returns (j: nat)
    requires f in Run(capacity, Hunting, cs).1
    ensures j < |cs| && Step(capacity, Run(capacity, Hunting, cs[..j]).0, cs[j]).1 == Some(f)
  {
    hide Step;
    var n := |cs| - 1;
    if Step(capacity, Run(capacity, Hunting, cs[..n]).0, cs[n]).1 == Some(f) {
      return n;
    }
    j := FrameOrigin(capacity, cs[..n], f);
    assert cs[..n][..j] == cs[..j];
  }

  lemma PlainFrameDecodes(capacity: nat, p: seq<byte>)
    requires |p| <= capacity && forall c :: c in p ==> !IsSpecial(c)
    ensures Run(capacity, Hunting, FrameText(p)).1 == [Frame(p, Sum(p), Sum(p))]
  {
    hide Run, Step, Unescape, Sum;
    var hex := ByteAsHex(Sum(p));
    var tail := p + [HASH, hex[0], hex[1]];
    assert FrameText(p) == [DOLLAR] + tail;
    PlainBody(p);
    ByteHexRoundTrip(Sum(p));
    NotDollar(hex[1]);
    RunFrame(capacity, p, hex[0], hex[1]);
    RunHead(capacity, Hunting, DOLLAR, tail);
    StepHunting(capacity);
  }

  lemma OnlyPlainFramesDecode(capacity: nat, p: seq<byte>, f: Frame)
    requires f in Run(capacity, Hunting, FrameText(p)).1 && f.Valid() && f.payload == p
    ensures forall c :: c in p ==> !IsSpecial(c)
  {
    hide Run, Step, Sum, ByteAsHex, Total, HexCharToNibble, Unescape;
    var cs := FrameText(p);
    var j := FrameOrigin(capacity, cs, f);
    var raw, hi, lo := CompletedIsGenuine(capacity, cs[..j], cs[j]);
    assert |p| <= |raw| && j + 1 == |cs|;
    assert cs[..j] + [cs[j]] == cs;
    assert cs[|cs| - |raw| - 4..] == cs;
    assert raw == cs[1..|p| + 1] == p;
  }

  /** What a receiver of the protocol makes of a payload framed without escaping: nothing unless
      exactly one valid frame comes out. */
  function Delivered(capacity: nat, p: seq<byte>): Option<seq<byte>> {
    var frames := Run(capacity, Hunting, FrameText(p)).1;
    if |frames| == 1 && frames[0].Valid() then Some(frames[0].payload) else None
  }

  /** Responses are sent unescaped: a receiver of this protocol recovers one if and only if it
      contains none of '$', '#' and '}'. */
  lemma UnescapedFrameDecodes(capacity: nat, p: seq<byte>)
    requires |p| <= capacity
    ensures Run(capacity, Hunting, FrameText(p)).1 == [Frame(p, Sum(p), Sum(p))]
       <==> forall c :: c in p ==> !IsSpecial(c)
    ensures Delivered(capacity, p) == Some(p) <==> forall c :: c in p ==> !IsSpecial(c)
  {
    hide Run, Sum;
    if forall c :: c in p ==> !IsSpecial(c) {
      PlainFrameDecodes(capacity, p);
    }
    var frames := Run(capacity, Hunting, FrameText(p)).1;
    if frames == [Frame(p, Sum(p), Sum(p))] || Delivered(capacity, p) == Some(p) {
      OnlyPlainFramesDecode(capacity, p, frames[0]);
    }
  }

  lemma StepHunting(capacity: nat)
    ensures Step(capacity, Hunting, DOLLAR) == (Body([], 0), None)
  {
  }

  // ---------------------------------------------------------------- sending

  const CONTROL_C: byte := 0x03

  function Repeat(frame: seq<byte>, copies: nat): (r: seq<byte>)
    ensures |r| == copies * |frame|
  {
    if copies == 0 then [] else Repeat(frame, copies - 1) + frame
  }

  /** Each copy is the frame. */
  lemma {:induction false} CopyAt(frame: seq<byte>, copies: nat, k: nat)
    requires k < copies
    ensures 0 <= k * |frame| <= (k + 1) * |frame| <= |Repeat(frame, copies)|
    ensures Repeat(frame, copies)[k * |frame|..(k + 1) * |frame|] == frame
  {
    var front := Repeat(frame, copies - 1);
    assert (k + 1) * |frame| == k * |frame| + |frame|;
    if k < copies - 1 {
      CopyAt(frame, copies - 1, k);
    }
  }

  /** How many of the replies read call for another copy: all but the control-Cs. */
  function Retries(replies: seq<byte>): nat {
    if replies == [] then 0
    else Retries(replies[..|replies| - 1]) + if replies[|replies| - 1] == CONTROL_C then 0 else 1
  }

  /** Neither of the two characters that end a send. */
  ghost predicate NoneEnds(replies: seq<byte>) {
    '+' as int !in replies && '$' as int !in replies
  }

  /** Every reply but the control-Cs calls for another copy. */
  lemma {:induction false} RepliesRetried(replies: seq<byte>)
    ensures Retries(replies) + multiset(replies)[0x03] == |replies|
  {
    if replies != [] {
      var n := |replies| - 1;
      RepliesRetried(replies[..n]);
      assert replies == replies[..n] + [replies[n]];
      assert multiset(replies) == multiset(replies[..n]) + multiset{replies[n]};
    }
  }

  /** Position e holds the first '+' or '$' from position i on. */
  ghost predicate IsFirstEnd(script: seq<Arrival>, i: nat, e: nat) {
    i <= e < |script| && (script[e].ch == '+' as int || script[e].ch == '$' as int) &&
    forall m :: i <= m < e ==> script[m].ch != '+' as int && script[m].ch != '$' as int
  }

  /** A send that reads all replies up to the one that ends it stops behind the first that can. */
  lemma EndsAtFirst(script: seq<Arrival>, i: nat, j: nat, refused: seq<byte>, done: bool, last: byte, e: nat)
    requires i <= j <= |script| && IsFirstEnd(script, i, e)
    requires Chars(script[i..j]) == refused + if done then [last] else []
    requires NoneEnds(refused)
    requires if done then last == '+' as int || last == '$' as int else j == |script|
    ensures done && j == e + 1 && last == script[e].ch && refused == Chars(script[i..e])
    ensures Retries(refused) + multiset(refused)[0x03] == e - i
    ensures (forall m :: i <= m < e ==> script[m].ch != 0x03) ==> Retries(refused) == e - i
  {
    EndIsReached(script, i, j, refused, done, last, e);
    RepliesRetried(refused);
    hide Retries;
    if forall m :: i <= m < e ==> script[m].ch != 0x03 {
      assert 0x03 !in refused;
    }
  }

  lemma EndIsReached(script: seq<Arrival>, i: nat, j: nat, refused: seq<byte>, done: bool, last: byte, e: nat)
    requires i <= j <= |script| && IsFirstEnd(script, i, e)
    requires Chars(script[i..j]) == refused + if done then [last] else []
    requires NoneEnds(refused)
    requires if done then last == '+' as int || last == '$' as int else j == |script|
    ensures done && j == e + 1 && last == script[e].ch && refused == Chars(script[i..e])
  {
    var read := Chars(script[i..j]);
    assert forall m :: 0 <= m < |refused| ==> refused[m] in refused && refused[m] == read[m] == script[i + m].ch;
    assert done ==> read[|refused|] == last == script[i + |refused|].ch;
    assert i + |refused| == e;
    assert Chars(script[i..e]) == read[..e - i] == refused;
  }
}
