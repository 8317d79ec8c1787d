/** The vCont command of mri/core/cmd_vcont.c: parsing a list of actions, keeping the most
    specific step and continue action, and replaying the list on the threads. */
module VCont {
  import opened Common
  import opened Hex
  import opened Buffers
  import opened Mri

  const COLON: byte := ':' as int
  const SEMICOLON: byte := ';' as int
  const COMMA: byte := ',' as int
  const MINUS_ONE: seq<byte> := ['-' as int, '1' as int]
  const COMMAND_NAME: seq<byte> := ['v' as int, 'C' as int, 'o' as int, 'n' as int, 't' as int]

  datatype ThreadId = NoThread | AllThreads | Specific(id: nat)

  datatype Action =
    | NoAction
    | Continue(thread: ThreadId)
    | SingleStep(thread: ThreadId)
    | RangedSingleStep(thread: ThreadId, start: nat, end: nat)
  {
    predicate IsStep() {
      SingleStep? || RangedSingleStep?
    }
  }

  /** What the platform says about threads. */
  datatype Rtos = Rtos(setThreadStateSupported: bool, haltedThreadId: nat)

  // ---------------------------------------------------------------- the grammar

  /** What a parser makes of a text: its result, the text left and whether it raised no exception.
      After an exception the result is what the source's parser returns all the same. */
  datatype Parse<T> = Parse(value: T, rest: seq<byte>, ok: bool)

  /** A hexadecimal word kept in a uint32_t. */
  function ParseWord(s: seq<byte>, w: nat): (r: Parse<nat>)
    ensures |r.rest| <= |s|
  {
    var (value, exc, k) := ReadUInteger(s, w);
    Parse(Truncate(value, 4), s[k..], exc == NoException)
  }

  function ParseOptionalThreadId(s: seq<byte>, w: nat): (r: Parse<ThreadId>)
    ensures |r.rest| <= |s|
  {
    if s == [] || s[0] != COLON then Parse(NoThread, s, true)
    else if StartsWithWord(s[1..], MINUS_ONE) then Parse(AllThreads, s[3..], true)
    else
      var id := ParseWord(s[1..], w);
      Parse(if id.ok then Specific(id.value) else NoThread, id.rest, id.ok)
  }

  /** The two hex digits of a signal, which are ignored. */
  function SkipSignal(s: seq<byte>): (r: Parse<()>)
    ensures |r.rest| <= |s|
  {
    if |s| < 2 then Parse((), [], false)
    else if IsHexDigit(s[0]) && IsHexDigit(s[1]) then Parse((), s[2..], true)
    else Parse((), s, false)
  }

  function ParseAddressRange(s: seq<byte>, w: nat): (r: Parse<(nat, nat)>)
    ensures |r.rest| <= |s|
  {
    var start := ParseWord(s, w);
    if !start.ok || start.rest == [] || start.rest[0] != COMMA then Parse((start.value, 0), start.rest, false)
    else
      var end := ParseWord(start.rest[1..], w);
      Parse((start.value, end.value), end.rest, end.ok)
  }

  /** What stands between an action's letter and its thread. */
  function ParsePrefix(letter: byte, s: seq<byte>, w: nat): (r: Parse<(nat, nat)>)
    ensures |r.rest| <= |s|
  {
    if letter == 'C' as int || letter == 'S' as int then
      var signal := SkipSignal(s);
      Parse((0, 0), signal.rest, signal.ok)
    else if letter == 'r' as int then ParseAddressRange(s, w)
    else Parse((0, 0), s, true)
  }

  predicate IsActionLetter(c: byte) {
    c == 'c' as int || c == 'C' as int || c == 's' as int || c == 'S' as int || c == 'r' as int
  }

  /** The action a letter stands for. */
  function ActionOf(letter: byte, thread: ThreadId, range: (nat, nat)): (a: Action)
    ensures a != NoAction
  {
    if letter == 'c' as int || letter == 'C' as int then Continue(thread)
    else if letter == 'r' as int then RangedSingleStep(thread, range.0, range.1)
    else SingleStep(thread)
  }

  /** One action, from the character behind its ';'. */
  function ParseAction(s: seq<byte>, w: nat): (r: Parse<Action>)
    ensures |r.rest| <= |s|
    ensures r.value == NoAction <==>
              s == [] || s[0] !in {'c' as int, 'C' as int, 's' as int, 'S' as int, 'r' as int}
    ensures r.ok ==> r.value != NoAction
  {
    if s == [] then Parse(NoAction, [], false)
    else if !IsActionLetter(s[0]) then Parse(NoAction, s[1..], false)
    else
      var prefix := ParsePrefix(s[0], s[1..], w);
      if !prefix.ok then Parse(ActionOf(s[0], NoThread, prefix.value), prefix.rest, false)
      else
        var thread := ParseOptionalThreadId(prefix.rest, w);
        Parse(ActionOf(s[0], thread.value, prefix.value), thread.rest, thread.ok)
  }

  /** A list of actions as the first pass reads it: all of it, up to a malformed action, or up to
      something that is no action at all. */
  datatype ActionList =
    | WellFormed(actions: seq<Action>)
    | BadAction(actions: seq<Action>)
    | LeftOver(actions: seq<Action>)

  function ParseActions(s: seq<byte>, w: nat): ActionList
    decreases |s|
  {
    if s == [] then WellFormed([])
    else if s[0] != SEMICOLON then LeftOver([])
    else
      var action := ParseAction(s[1..], w);
      if !action.ok then BadAction([]) else Prepended([action.value], ParseActions(action.rest, w))
  }

  function Prepended(parsed: seq<Action>, list: ActionList): ActionList {
    list.(actions := parsed + list.actions)
  }

  /** The actions the second pass applies: it does not look at exceptions. */
  function ReplayActions(s: seq<byte>, w: nat): (actions: seq<Action>)
    ensures AllActions(actions)
    decreases |s|
  {
    if s == [] || s[0] != SEMICOLON then []
    else
      var action := ParseAction(s[1..], w);
      (if action.value == NoAction then [] else [action.value]) + ReplayActions(action.rest, w)
  }

  predicate AllActions(actions: seq<Action>) {
    forall i :: 0 <= i < |actions| ==> actions[i] != NoAction
  }

  /** The second pass replays at least what the first accepted, and nothing else unless an action
      was malformed. */
  lemma {:induction false} ReplayStartsWithParsed(s: seq<byte>, w: nat)
    ensures ParseActions(s, w).actions <= ReplayActions(s, w)
    ensures !ParseActions(s, w).BadAction? ==> ReplayActions(s, w) == ParseActions(s, w).actions
    decreases |s|
  {
    hide ParseAction;
    if s != [] && s[0] == SEMICOLON {
      ReplayStartsWithParsed(ParseAction(s[1..], w).rest, w);
    }
  }

  /** Nothing but unknown letters behind the semicolons, as far as the list goes. */
  predicate OnlyUnknownLetters(s: seq<byte>)
    decreases |s|
  {
    s == [] || s[0] != SEMICOLON || |s| == 1 || (!IsActionLetter(s[1]) && OnlyUnknownLetters(s[2..]))
  }

  /** Exactly which texts replay nothing. */
  lemma {:induction false} NothingReplayedWhen(s: seq<byte>, w: nat)
    ensures ReplayActions(s, w) == [] <==> OnlyUnknownLetters(s)
    decreases |s|
  {
    if s != [] && s[0] == SEMICOLON {
      hide ParsePrefix, ParseOptionalThreadId, ActionOf;
      if |s| > 1 && !IsActionLetter(s[1]) {
        assert s[1..][1..] == s[2..];
        NothingReplayedWhen(s[2..], w);
      }
    }
  }

  /** A malformed list need not be refused: ";c;x" still thaws threads, and so does ";C", whose
      only action lacks its signal. */
  lemma BadActionReplayed(w: nat)
    ensures var s: seq<byte> := [SEMICOLON, 'c' as int, SEMICOLON, 'x' as int];
            ParseActions(s, w) == BadAction([Continue(NoThread)]) && ReplayActions(s, w) == [Continue(NoThread)]
    ensures var s: seq<byte> := [SEMICOLON, 'C' as int];
            ParseActions(s, w) == BadAction([]) && ReplayActions(s, w) == [Continue(NoThread)]
  {
    var c: byte, x: byte := 'c' as int, 'x' as int;
    var s := [SEMICOLON, c, SEMICOLON, x];
    assert s[1..] == [c, SEMICOLON, x] && s[1..][1..] == [SEMICOLON, x] && [SEMICOLON, x][1..] == [x];
    assert ParseAction(s[1..], w) == Parse(Continue(NoThread), [SEMICOLON, x], true);
    assert ParseAction([x], w) == Parse(NoAction, [], false);
    assert ParseActions([SEMICOLON, x], w) == BadAction([]) && ReplayActions([SEMICOLON, x], w) == [];
    var alone: seq<byte> := [SEMICOLON, 'C' as int];
    assert alone[1..] == ['C' as int] && alone[1..][1..] == [];
    assert ParseAction(alone[1..], w) == Parse(Continue(NoThread), [], false);
  }

  // ---------------------------------------------------------------- printing parses back

  function PrintThreadId(t: ThreadId): seq<byte> {
    match t
    case NoThread => []
    case AllThreads => [COLON] + MINUS_ONE
    case Specific(id) => [COLON] + UIntegerAsHex(id)
  }

  /** An action as text, with a signal where one is given. */
  function PrintAction(a: Action, signal: Option<byte>): seq<byte> {
    match a
    case NoAction => []
    case Continue(t) =>
      (if signal.Some? then ['C' as int] + ByteAsHex(signal.value) else ['c' as int]) + PrintThreadId(t)
    case SingleStep(t) =>
      (if signal.Some? then ['S' as int] + ByteAsHex(signal.value) else ['s' as int]) + PrintThreadId(t)
    case RangedSingleStep(t, start, end) =>
      ['r' as int] + UIntegerAsHex(start) + [COMMA] + UIntegerAsHex(end) + PrintThreadId(t)
  }

  function PrintActions(actions: seq<Action>, signals: seq<Option<byte>>): seq<byte>
    requires |actions| == |signals|
  {
    if actions == [] then []
    else [SEMICOLON] + PrintAction(actions[0], signals[0]) + PrintActions(actions[1..], signals[1..])
  }

  /** The numbers of an action are 32-bit words. */
  predicate IsPrintable(a: Action) {
    match a
    case NoAction => false
    case Continue(t) => t.Specific? ==> t.id < Modulus(4)
    case SingleStep(t) => t.Specific? ==> t.id < Modulus(4)
    case RangedSingleStep(t, start, end) =>
      (t.Specific? ==> t.id < Modulus(4)) && start < Modulus(4) && end < Modulus(4)
  }

  lemma {:induction false} WiderModulus(w: nat)
    requires w >= 4
    ensures Modulus(4) <= Modulus(w)
  {
    if w > 4 { WiderModulus(w - 1); }
  }

  /** Any hex digits are read as their value in the machine word, of which 32 bits are kept. */
  lemma ParseWordOf(digits: seq<byte>, w: nat, after: seq<byte>)
    requires forall i :: 0 <= i < |digits| ==> IsHexDigit(digits[i])
    requires after == [] || !IsHexDigit(after[0])
    ensures ParseWord(digits + after, w)
         == Parse(HexValue(digits) % Modulus(w) % 0x1_0000_0000, after, digits != [])
  {
    hide HexValue, IsHexDigit, ReadUInteger;
    ReadUIntegerOf(digits, w, after);
    assert Modulus(1) == 256 && Modulus(2) == 256 * Modulus(1) && Modulus(3) == 256 * Modulus(2);
    assert (digits + after)[|digits|..] == after;
  }

  lemma ParsePrintedWord(value: nat, w: nat, after: seq<byte>)
    requires w >= 4 && value < Modulus(4)
    requires after == [] || !IsHexDigit(after[0])
    ensures ParseWord(UIntegerAsHex(value) + after, w) == Parse(value, after, true)
  {
    hide UIntegerAsHex, Modulus, IsHexDigit, ReadUInteger, Truncate;
    WiderModulus(w);
    UnsignedRoundTrip(value, w, after);
    TruncateSmall(value, 4);
    var digits := UIntegerAsHex(value);
    assert (digits + after)[|digits|..] == after;
  }

  lemma Separators()
    ensures !IsHexDigit(COLON) && !IsHexDigit(SEMICOLON) && !IsHexDigit(COMMA) && !IsHexDigit('-' as int)
  {
  }

  lemma ParsePrintedThreadId(t: ThreadId, w: nat, after: seq<byte>)
    requires w >= 4 && (t.Specific? ==> t.id < Modulus(4))
    requires after == [] || after[0] == SEMICOLON
    ensures ParseOptionalThreadId(PrintThreadId(t) + after, w) == Parse(t, after, true)
  {
    hide UIntegerAsHex, Modulus, ParseWord, StartsWithWord;
    var s := PrintThreadId(t) + after;
    match t
    case NoThread =>
      assert s == after;
    case AllThreads =>
      MinusOneIsWord(after);
      assert s[1..] == MINUS_ONE + after && s[3..] == after;
    case Specific(id) =>
      Separators();
      ParsePrintedWord(id, w, after);
      DigitsAreNotMinusOne(id, after);
      assert s[1..] == UIntegerAsHex(id) + after;
  }

  lemma MinusOneIsWord(after: seq<byte>)
    requires after == [] || after[0] == SEMICOLON
    ensures StartsWithWord(MINUS_ONE + after, MINUS_ONE)
  {
    assert (MINUS_ONE + after)[..2] == MINUS_ONE;
  }

  lemma DigitsAreNotMinusOne(id: nat, after: seq<byte>)
    requires after == [] || !IsHexDigit(after[0])
    ensures !StartsWithWord(UIntegerAsHex(id) + after, MINUS_ONE)
  {
    hide IsHexDigit;
    Separators();
    var digits := UIntegerAsHex(id);
    UIntegerHexRoundTrip(id, after);
    assert IsHexDigit(digits[0]);
    assert (digits + after)[..2][0] == digits[0];
  }

  lemma ParsePrintedAction(a: Action, signal: Option<byte>, w: nat, after: seq<byte>)
    requires w >= 4 && IsPrintable(a)
    requires after == [] || after[0] == SEMICOLON
    ensures ParseAction(PrintAction(a, signal) + after, w) == Parse(a, after, true)
  {
    hide UIntegerAsHex, Modulus, ParseOptionalThreadId, PrintThreadId, ParseAddressRange, SkipSignal, ByteAsHex;
    var s, thread := PrintAction(a, signal) + after, PrintThreadId(a.thread) + after;
    ParsePrintedThreadId(a.thread, w, after);
    if a.RangedSingleStep? {
      ThreadTextStart(a.thread, after);
      ParsePrintedRange(a.start, a.end, w, thread);
      RegroupRange(['r' as int], UIntegerAsHex(a.start), [COMMA], UIntegerAsHex(a.end), PrintThreadId(a.thread), after);
      PrefixThenThread(s, w, (a.start, a.end), thread, a.thread, after);
    } else {
      if signal.Some? {
        assert s[1..] == ByteAsHex(signal.value) + thread;
        SkipPrintedSignal(signal.value, thread);
      } else {
        assert s[1..] == thread;
      }
      PrefixThenThread(s, w, (0, 0), thread, a.thread, after);
    }
  }

  lemma PrefixThenThread(s: seq<byte>, w: nat, range: (nat, nat), text: seq<byte>, thread: ThreadId, after: seq<byte>)
    requires s != [] && IsActionLetter(s[0]) && ParsePrefix(s[0], s[1..], w) == Parse(range, text, true)
    requires ParseOptionalThreadId(text, w) == Parse(thread, after, true)
    ensures ParseAction(s, w) == Parse(ActionOf(s[0], thread, range), after, true)
  {
    hide ParsePrefix, ParseOptionalThreadId, ActionOf;
  }

  /** Any signal is skipped. */
  lemma SkipPrintedSignal(signal: byte, after: seq<byte>)
    ensures SkipSignal(ByteAsHex(signal) + after) == Parse((), after, true)
  {
    ByteHexRoundTrip(signal);
    hide ByteAsHex, IsHexDigit;
    assert (ByteAsHex(signal) + after)[2..] == after;
  }

  lemma RegroupRange(r: seq<byte>, a: seq<byte>, comma: seq<byte>, b: seq<byte>, t: seq<byte>, after: seq<byte>)
    requires |r| == 1
    ensures (r + a + comma + b + t + after)[1..] == a + comma + b + (t + after)
  {
  }

  lemma ThreadTextStart(t: ThreadId, after: seq<byte>)
    requires after == [] || after[0] == SEMICOLON
    ensures var s := PrintThreadId(t) + after; s == [] || !IsHexDigit(s[0])
  {
    hide UIntegerAsHex, IsHexDigit;
    Separators();
  }

  lemma ParsePrintedRange(start: nat, end: nat, w: nat, s: seq<byte>)
    requires w >= 4 && start < Modulus(4) && end < Modulus(4)
    requires s == [] || !IsHexDigit(s[0])
    ensures ParseAddressRange(UIntegerAsHex(start) + [COMMA] + UIntegerAsHex(end) + s, w) == Parse((start, end), s, true)
  {
    hide UIntegerAsHex, Modulus, ParseWord, IsHexDigit;
    Separators();
    ParsePrintedWord(end, w, s);
    var rest := [COMMA] + (UIntegerAsHex(end) + s);
    assert rest[1..] == UIntegerAsHex(end) + s;
    ParsePrintedWord(start, w, rest);
    assert UIntegerAsHex(start) + rest == UIntegerAsHex(start) + [COMMA] + UIntegerAsHex(end) + s;
  }

  /** Every list of actions, with or without signals, has a text that parses to exactly that list. */
  lemma {:induction false} ActionsRoundTrip(actions: seq<Action>, signals: seq<Option<byte>>, w: nat)
    requires w >= 4 && |actions| == |signals| && forall a :: a in actions ==> IsPrintable(a)
    ensures ParseActions(PrintActions(actions, signals), w) == WellFormed(actions)
  {
    hide PrintAction, ParseAction, IsPrintable;
    if actions != [] {
      var rest := PrintActions(actions[1..], signals[1..]);
      assert forall a :: a in actions[1..] ==> a in actions;
      ActionsRoundTrip(actions[1..], signals[1..], w);
      var s := PrintActions(actions, signals);
      assert s[1..] == PrintAction(actions[0], signals[0]) + rest;
      StartsBehind(actions[1..], signals[1..]);
      ParsePrintedAction(actions[0], signals[0], w, rest);
      assert [actions[0]] + actions[1..] == actions;
    }
  }

  lemma StartsBehind(actions: seq<Action>, signals: seq<Option<byte>>)
    requires |actions| == |signals|
    ensures var s := PrintActions(actions, signals); s == [] || s[0] == SEMICOLON
  {
    hide PrintAction;
  }

  // ---------------------------------------------------------------- selection

  predicate IsSpecificToNonHalted(a: Action, rtos: Rtos)
    requires !a.NoAction?
  {
    a.thread.Specific? && a.thread.id != rtos.haltedThreadId
  }

  function Priority(a: Action, rtos: Rtos): nat {
    if a.NoAction? then 0
    else if rtos.setThreadStateSupported && IsSpecificToNonHalted(a, rtos) then 0
    else if a.thread.NoThread? then 1
    else if !rtos.setThreadStateSupported && IsSpecificToNonHalted(a, rtos) then 2
    else if a.thread.AllThreads? then 3
    else 4
  }

  /** Which of two actions is kept. The halted thread's own goes before one for all threads, that
      before a default. One for another thread counts for nothing where thread states can be set;
      elsewhere it stands between a default and one for all. Whatever counts beats nothing. */
  lemma RankByThread(default: Action, other: Action, all: Action, own: Action, rtos: Rtos)
    requires !default.NoAction? && default.thread == NoThread && !all.NoAction? && all.thread == AllThreads
    requires !own.NoAction? && own.thread == Specific(rtos.haltedThreadId)
    requires !other.NoAction? && other.thread.Specific? && other.thread.id != rtos.haltedThreadId
    ensures MoreSpecific(NoAction, default, rtos) == MoreSpecific(default, NoAction, rtos) == default
    ensures MoreSpecific(default, all, rtos) == MoreSpecific(all, default, rtos) == all
    ensures MoreSpecific(all, own, rtos) == MoreSpecific(own, all, rtos) == own
    ensures MoreSpecific(default, own, rtos) == MoreSpecific(own, default, rtos) == own
    ensures MoreSpecific(all, other, rtos) == MoreSpecific(other, all, rtos) == all
    ensures MoreSpecific(own, other, rtos) == MoreSpecific(other, own, rtos) == own
    ensures MoreSpecific(default, other, rtos) == MoreSpecific(other, default, rtos)
         == if rtos.setThreadStateSupported then default else other
    ensures MoreSpecific(NoAction, other, rtos) == if rtos.setThreadStateSupported then NoAction else other
  {
  }

  /** Of two actions for the same thread the first is kept. */
  lemma FirstOfEqualsIsKept(a: Action, b: Action, rtos: Rtos)
    requires !a.NoAction? && !b.NoAction? && a.thread == b.thread
    ensures MoreSpecific(a, b, rtos) == a
  {
  }

  /** a is the leftmost action of greatest priority among those of its kind, or none is worth keeping. */
  ghost predicate IsSelected(a: Action, actions: seq<Action>, step: bool, rtos: Rtos) {
    if a.NoAction? then
      forall k :: 0 <= k < |actions| && OfKind(actions[k], step) ==> Priority(actions[k], rtos) == 0
    else
      exists i :: 0 <= i < |actions| && actions[i] == a && OfKind(a, step) && Priority(a, rtos) > 0 &&
        (forall k :: 0 <= k < |actions| && OfKind(actions[k], step) ==> Priority(actions[k], rtos) <= Priority(a, rtos)) &&
        (forall k :: 0 <= k < i && OfKind(actions[k], step) ==> Priority(actions[k], rtos) < Priority(a, rtos))
  }

  predicate OfKind(a: Action, step: bool) {
    if step then a.IsStep() else a.Continue?
  }

  /** isActionMoreSpecificThanCurrent, and what is kept then. */
  function MoreSpecific(current: Action, next: Action, rtos: Rtos): Action {
    if Priority(next, rtos) > Priority(current, rtos) then next else current
  }

  /** Keeping a strictly more specific action extends the selection by one action. */
  lemma SelectNext(a: Action, actions: seq<Action>, next: Action, step: bool, rtos: Rtos)
    requires IsSelected(a, actions, step, rtos)
    ensures IsSelected(if OfKind(next, step) then MoreSpecific(a, next, rtos) else a, actions + [next], step, rtos)
  {
    hide Priority;
    NoActionHasNoPriority(rtos);
    var all, n := actions + [next], |actions|;
    assert all[n] == next && forall k :: 0 <= k < n ==> all[k] == actions[k];
    if OfKind(next, step) && Priority(next, rtos) > Priority(a, rtos) {
      assert all[n] == next;
    } else if !a.NoAction? {
      var i :| 0 <= i < n && actions[i] == a && OfKind(a, step) && Priority(a, rtos) > 0 &&
        (forall k :: 0 <= k < n && OfKind(actions[k], step) ==> Priority(actions[k], rtos) <= Priority(a, rtos)) &&
        (forall k :: 0 <= k < i && OfKind(actions[k], step) ==> Priority(actions[k], rtos) < Priority(a, rtos));
      assert all[i] == a;
    }
  }

  lemma NoActionHasNoPriority(rtos: Rtos)
    ensures Priority(NoAction, rtos) == 0
  {
  }

  /** The selection is unique: two candidates for the same list are equal. */
  lemma SelectionIsUnique(a: Action, b: Action, actions: seq<Action>, step: bool, rtos: Rtos)
    requires IsSelected(a, actions, step, rtos) && IsSelected(b, actions, step, rtos)
    ensures a == b
  {
    hide Priority;
  }

  /** Whether some step asks for the halted thread. */
  ghost predicate WantsStep(actions: seq<Action>, rtos: Rtos) {
    exists i :: 0 <= i < |actions| && actions[i].IsStep() && Priority(actions[i], rtos) > 0
  }

  /** A step is kept exactly when one asks for the halted thread; without thread state support
      every action does, so keeping nothing means there was nothing. */
  lemma KeptWhen(continueAction: Action, stepAction: Action, actions: seq<Action>, rtos: Rtos)
    requires AllActions(actions)
    requires IsSelected(stepAction, actions, true, rtos) && IsSelected(continueAction, actions, false, rtos)
    ensures stepAction != NoAction <==> WantsStep(actions, rtos)
    ensures !rtos.setThreadStateSupported ==> (continueAction == NoAction && stepAction == NoAction <==> actions == [])
  {
    NoActionHasNoPriority(rtos);
    if actions != [] && !rtos.setThreadStateSupported {
      assert Priority(actions[0], rtos) > 0;
      assert OfKind(actions[0], true) || OfKind(actions[0], false);
    }
  }

  // ---------------------------------------------------------------- the parsers over the buffer

  method ReadWord(buffer: Buffer, w: nat) returns (value: nat, exc: Exception)
    requires buffer.Valid() && w >= 1
    modifies buffer`cur
    ensures buffer.Valid()
    ensures ParseWord(old(buffer.Rest()), w) == Parse(value, buffer.Rest(), exc == NoException)
  {
    hide HexPrefix, HexValue, Truncate;
    var v;
    v, exc := buffer.ReadUIntegerAsHex(w);
    value := Truncate(v, 4);
  }

  method ReadOptionalThreadId(buffer: Buffer, w: nat) returns (thread: ThreadId, exc: Exception)
    requires buffer.Valid() && w >= 1
    modifies buffer`cur
    ensures buffer.Valid()
    ensures ParseOptionalThreadId(old(buffer.Rest()), w) == Parse(thread, buffer.Rest(), exc == NoException)
  {
    hide ParseWord, StartsWithWord;
    ghost var s := buffer.Rest();
    if buffer.BytesLeft() == 0 {
      return NoThread, NoException;
    }
    var colon, matches, id;
    colon, exc := buffer.IsNextCharEqualTo(COLON);
    if !colon {
      assert buffer.Rest() == s;
      return NoThread, NoException;
    }
    assert buffer.Rest() == s[1..];
    matches, exc := buffer.MatchesString(MINUS_ONE);
    if matches {
      MinusOneLength(s[1..]);
      assert buffer.Rest() == s[3..];
      return AllThreads, NoException;
    }
    assert buffer.Rest() == s[1..];
    id, exc := ReadWord(buffer, w);
    thread := if exc == NoException then Specific(id) else NoThread;
  }

  lemma MinusOneLength(s: seq<byte>)
    requires StartsWithWord(s, MINUS_ONE)
    ensures |s| >= 2
  {
  }

  method ReadAddressRange(buffer: Buffer, w: nat) returns (start: nat, end: nat, exc: Exception)
    requires buffer.Valid() && w >= 1
    modifies buffer`cur
    ensures buffer.Valid()
    ensures ParseAddressRange(old(buffer.Rest()), w) == Parse((start, end), buffer.Rest(), exc == NoException)
  {
    hide ParseWord;
    start, end := 0, 0;
    start, exc := ReadWord(buffer, w);
    if exc != NoException {
      return;
    }
    ghost var rest := buffer.Rest();
    var comma, _ := buffer.IsNextCharEqualTo(COMMA);
    if !comma {
      assert buffer.Rest() == rest;
      exc := InvalidArgument;
      return;
    }
    assert buffer.Rest() == rest[1..];
    end, exc := ReadWord(buffer, w);
  }

  method ReadAction(buffer: Buffer, w: nat) returns (action: Action, exc: Exception)
    requires buffer.Valid() && w >= 1
    modifies buffer`cur
    ensures buffer.Valid()
    ensures ParseAction(old(buffer.Rest()), w) == Parse(action, buffer.Rest(), exc == NoException)
  {
    hide ParseOptionalThreadId, ParseAddressRange, IsHexDigit;
    ghost var s := buffer.Rest();
    var ch, start, end, thread := 0, 0, 0, NoThread;
    ch, exc := buffer.ReadChar();
    assert s == [] ==> ch == 0 && buffer.Rest() == [];
    assert s != [] ==> ch == s[0] && buffer.Rest() == s[1..];
    if !IsActionLetter(ch) {
      return NoAction, InvalidArgument;
    }
    if ch == 'C' as int || ch == 'S' as int {
      var signal;
      signal, exc := buffer.ReadByteAsHex();
      assert exc == NoException ==> buffer.Rest() == s[1..][2..];
      assert exc != NoException ==> buffer.Rest() == if |s[1..]| < 2 then [] else s[1..];
    } else if ch == 'r' as int {
      start, end, exc := ReadAddressRange(buffer, w);
    }
    if exc == NoException {
      thread, exc := ReadOptionalThreadId(buffer, w);
    }
    action := ActionOf(ch, thread, (start, end));
  }

  // ---------------------------------------------------------------- the two passes

  /** The parse of a text, one action further. */
  lemma ParseOneMore(parsed: seq<Action>, s: seq<byte>, w: nat)
    requires s != []
    ensures s[0] != SEMICOLON ==> Prepended(parsed, ParseActions(s, w)) == LeftOver(parsed)
    ensures s[0] == SEMICOLON && !ParseAction(s[1..], w).ok ==> Prepended(parsed, ParseActions(s, w)) == BadAction(parsed)
    ensures s[0] == SEMICOLON && ParseAction(s[1..], w).ok ==>
              var action := ParseAction(s[1..], w);
              Prepended(parsed, ParseActions(s, w)) == Prepended(parsed + [action.value], ParseActions(action.rest, w))
  {
    hide ParseAction;
    assert parsed + [] == parsed;
    if s[0] == SEMICOLON && ParseAction(s[1..], w).ok {
      var action := ParseAction(s[1..], w);
      var rest := ParseActions(action.rest, w);
      assert parsed + ([action.value] + rest.actions) == parsed + [action.value] + rest.actions;
    }
  }

  lemma ParseDone(parsed: seq<Action>, w: nat)
    ensures Prepended(parsed, ParseActions([], w)) == WellFormed(parsed)
  {
    assert parsed + [] == parsed;
  }

  lemma ParseStart(s: seq<byte>, w: nat)
    ensures Prepended([], ParseActions(s, w)) == ParseActions(s, w)
  {
    var list := ParseActions(s, w);
    assert [] + list.actions == list.actions;
  }

  /** The first pass: what is kept is the selection among the actions read. The exception code it
      leaves is lost after a malformed action whenever the error text fits the buffer, because
      writing that text clears it. */
  method FirstParsePass(mri: MriCore, rtos: Rtos, w: nat)
    returns (continueAction: Action, stepAction: Action, exc: Exception)
    requires mri.Valid() && w >= 1
    modifies mri.packet.packetBuffer, mri.packet.dataBuffer, mri.platformBuffer
    ensures mri.Valid()
    ensures var list := ParseActions(old(mri.packet.dataBuffer.Rest()), w);
            var capacity := mri.platformBuffer.Length - 4;
            AllActions(list.actions) &&
            IsSelected(stepAction, list.actions, true, rtos) && IsSelected(continueAction, list.actions, false, rtos) &&
            if list.WellFormed? && list.actions != [] then
              exc == NoException && mri.platformBuffer[..] == old(mri.platformBuffer[..])
            else
              (exc == NoException <==> list.BadAction? && |INVALID_ARGUMENT_ERROR| <= capacity) &&
              mri.packet.dataBuffer.View() == Put(Response.Text([]), capacity, INVALID_ARGUMENT_ERROR) &&
              (|INVALID_ARGUMENT_ERROR| <= capacity ==> mri.platformBuffer[4..] == old(mri.platformBuffer[4..]))
  {
    hide ParseActions, ParseAction, Prepended, IsSelected, MoreSpecific, WantsStep, Put;
    var buffer := mri.packet.dataBuffer;
    ghost var parsed, result := [], ParseActions(buffer.Rest(), w);
    continueAction, stepAction, exc := NoAction, NoAction, NoException;
    var actionCount := 0;
    ParseStart(buffer.Rest(), w);
    NothingSelected(rtos);
    while buffer.BytesLeft() > 0
      invariant mri.Valid() && buffer.mem == old(buffer.mem) && actionCount == |parsed|
      invariant result == Prepended(parsed, ParseActions(buffer.Rest(), w))
      invariant AllActions(parsed)
      invariant IsSelected(stepAction, parsed, true, rtos) && IsSelected(continueAction, parsed, false, rtos)
      invariant mri.platformBuffer[..] == old(mri.platformBuffer[..])
      decreases buffer.BytesLeft()
    {
      ghost var s := buffer.Rest();
      ParseOneMore(parsed, s, w);
      var semicolon, action;
      semicolon, exc := buffer.IsNextCharEqualTo(SEMICOLON);
      if !semicolon {
        break;
      }
      assert buffer.Rest() == s[1..];
      action, exc := ReadAction(buffer, w);
      if exc != NoException {
        exc := mri.PrepareStringResponse(INVALID_ARGUMENT_ERROR);
        return;
      }
      actionCount := actionCount + 1;
      SelectNext(stepAction, parsed, action, true, rtos);
      SelectNext(continueAction, parsed, action, false, rtos);
      if action.IsStep() {
        stepAction := MoreSpecific(stepAction, action, rtos);
      } else if action.Continue? {
        continueAction := MoreSpecific(continueAction, action, rtos);
      }
      parsed := parsed + [action];
    }
    exc := NoException;
    assert buffer.BytesLeft() == 0 ==> buffer.Rest() == [];
    ParseDone(parsed, w);
    KeptWhen(continueAction, stepAction, parsed, rtos);
    if buffer.BytesLeft() > 0
       || (!rtos.setThreadStateSupported && continueAction == NoAction && stepAction == NoAction)
       || (rtos.setThreadStateSupported && actionCount == 0) {
      var _ := mri.PrepareStringResponse(INVALID_ARGUMENT_ERROR);
      exc := InvalidArgument;
    }
  }

  lemma NothingSelected(rtos: Rtos)
    ensures IsSelected(NoAction, [], true, rtos) && IsSelected(NoAction, [], false, rtos)
  {
  }

  const ALL_THREADS: nat := 0xFFFF_FFFF
  const ALL_FROZEN_THREADS: nat := 0xFFFF_FFFE

  datatype ThreadState = Frozen | Thawed | SingleStepping

  /** Platform_RtosSetThreadState on a finite set of threads: all of them, all still frozen, or one. */
  function SetState(states: map<nat, ThreadState>, id: nat, state: ThreadState): map<nat, ThreadState> {
    if id == 0xFFFF_FFFF then map t | t in states :: state
    else if id == 0xFFFF_FFFE then map t | t in states :: if states[t] == Frozen then state else states[t]
    else if id in states then states[id := state]
    else states
  }

  /** The threads' states, the calls made on the platform to set them, and the single-step settings
      left behind. */
  class Threads {
    var states: map<nat, ThreadState>
    var calls: seq<(nat, ThreadState)>
    var range: Option<(nat, nat)>

    method SetThreadState(id: nat, state: ThreadState)
      modifies this`calls, this`states
      ensures calls == old(calls) + [(id, state)] && states == SetState(old(states), id, state)
    {
      calls := calls + [(id, state)];
      states := SetState(states, id, state);
    }
  }

  /** The states after a sequence of calls. */
  function AfterCalls(states: map<nat, ThreadState>, calls: seq<(nat, ThreadState)>): map<nat, ThreadState> {
    if calls == [] then states
    else
      var n := |calls| - 1;
      SetState(AfterCalls(states, calls[..n]), calls[n].0, calls[n].1)
  }

  function ThreadCode(t: ThreadId): nat {
    match t
    case NoThread => ALL_FROZEN_THREADS
    case AllThreads => ALL_THREADS
    case Specific(id) => id
  }

  function CallFor(a: Action): (nat, ThreadState)
    requires a != NoAction
  {
    (ThreadCode(a.thread), if a.Continue? then Thawed else SingleStepping)
  }

  function CallsFor(actions: seq<Action>): (calls: seq<(nat, ThreadState)>)
    requires AllActions(actions)
    ensures |calls| == |actions| && forall i :: 0 <= i < |calls| ==> calls[i] == CallFor(actions[i])
  {
    seq(|actions|, i requires 0 <= i < |actions| => CallFor(actions[i]))
  }

  /** The range left set: that of the last ranged step. */
  function LastRange(actions: seq<Action>, before: Option<(nat, nat)>): Option<(nat, nat)> {
    if actions == [] then before
    else
      var a := actions[|actions| - 1];
      if a.RangedSingleStep? then Some((a.start, a.end)) else LastRange(actions[..|actions| - 1], before)
  }

  lemma NoCalls(calls: seq<(nat, ThreadState)>, range: Option<(nat, nat)>, states: map<nat, ThreadState>)
    ensures calls == calls + CallsFor([]) && range == LastRange([], range)
    ensures AfterCalls(states, CallsFor([])) == states
  {
  }

  lemma OneMoreCall(parsed: seq<Action>, a: Action, calls: seq<(nat, ThreadState)>, range: Option<(nat, nat)>,
                    states: map<nat, ThreadState>)
    requires AllActions(parsed) && a != NoAction
    ensures AllActions(parsed + [a])
    ensures calls + CallsFor(parsed) + [CallFor(a)] == calls + CallsFor(parsed + [a])
    ensures LastRange(parsed + [a], range)
         == if a.RangedSingleStep? then Some((a.start, a.end)) else LastRange(parsed, range)
    ensures AfterCalls(states, CallsFor(parsed + [a]))
         == SetState(AfterCalls(states, CallsFor(parsed)), CallFor(a).0, CallFor(a).1)
  {
    hide CallFor, SetState;
    assert (parsed + [a])[..|parsed|] == parsed;
    assert CallsFor(parsed + [a]) == CallsFor(parsed) + [CallFor(a)];
  }

  /** a is meant for thread t by name, or for every thread. */
  predicate Names(a: Action, t: nat) {
    !a.NoAction? &&
    (a.thread == AllThreads || a.thread == Specific(t) || a.thread == Specific(0xFFFF_FFFF))
  }

  /** a is meant for the threads that nothing else is meant for. */
  predicate IsDefault(a: Action) {
    !a.NoAction? && (a.thread == NoThread || a.thread == Specific(0xFFFF_FFFE))
  }

  /** What an action leaves a thread in. */
  function StateOf(a: Action): ThreadState {
    if a.Continue? then Thawed else SingleStepping
  }

  /** What a list of actions makes of a frozen thread: the last action that names it counts, without
      one the first default action, and without any of these it stays frozen. */
  ghost predicate EndsAs(actions: seq<Action>, t: nat, state: ThreadState) {
    (exists i :: 0 <= i < |actions| && Names(actions[i], t) && state == StateOf(actions[i]) &&
                 forall j :: i < j < |actions| ==> !Names(actions[j], t)) ||
    ((forall i :: 0 <= i < |actions| ==> !Names(actions[i], t)) &&
     if exists i :: 0 <= i < |actions| && IsDefault(actions[i]) then
       exists i :: 0 <= i < |actions| && IsDefault(actions[i]) && state == StateOf(actions[i]) &&
                   forall j :: 0 <= j < i ==> !IsDefault(actions[j])
     else state == Frozen)
  }

  /** One more action, on one thread. */
  lemma EndsAsNext(actions: seq<Action>, a: Action, t: nat, state: ThreadState)
    requires AllActions(actions) && a != NoAction && EndsAs(actions, t, state)
    ensures EndsAs(actions + [a], t,
                   if Names(a, t) || (IsDefault(a) && state == Frozen) then StateOf(a) else state)
  {
    var all, n := actions + [a], |actions|;
    assert all[n] == a && forall i :: 0 <= i < n ==> all[i] == actions[i];
    if Names(a, t) {
      assert Names(all[n], t);
    } else if i :| 0 <= i < n && Names(actions[i], t) && state == StateOf(actions[i]) &&
                   forall j :: i < j < n ==> !Names(actions[j], t) {
      assert Names(all[i], t);
    } else if i :| 0 <= i < n && IsDefault(actions[i]) && state == StateOf(actions[i]) &&
                   forall j :: 0 <= j < i ==> !IsDefault(actions[j]) {
      assert IsDefault(all[i]);
    } else if IsDefault(a) {
      assert IsDefault(all[n]);
    }
  }

  /** The calls for a list do to every thread what the list says. */
  lemma {:induction false} ThreadsGet(actions: seq<Action>, states: map<nat, ThreadState>, t: nat)
    requires AllActions(actions) && t in states && states[t] == Frozen && t < 0xFFFF_FFFE
    ensures var after := AfterCalls(states, CallsFor(actions));
            after.Keys == states.Keys && EndsAs(actions, t, after[t])
  {
    if actions != [] {
      var n := |actions| - 1;
      ThreadsGet(actions[..n], states, t);
      var before, a := AfterCalls(states, CallsFor(actions[..n])), actions[n];
      assert actions[..n] + [a] == actions;
      OneMoreCall(actions[..n], a, [], None, states);
      EndsAsNext(actions[..n], a, t, before[t]);
      hide EndsAs, AfterCalls, CallsFor;
      SetOne(before, a, t);
    }
  }

  /** What one action does to the threads: those it is meant for get its state, a default only those
      still frozen. */
  ghost predicate ActsOn(a: Action, before: map<nat, ThreadState>, after: map<nat, ThreadState>) {
    after.Keys == before.Keys &&
    forall t :: t in before && t < 0xFFFF_FFFE ==>
      after[t] == if Names(a, t) || (IsDefault(a) && before[t] == Frozen) then StateOf(a) else before[t]
  }

  lemma SetEach(states: map<nat, ThreadState>, a: Action)
    requires a != NoAction
    ensures ActsOn(a, states, SetState(states, CallFor(a).0, CallFor(a).1))
  {
    hide Names, IsDefault;
    forall t | t in states && t < 0xFFFF_FFFE
      ensures var after := SetState(states, CallFor(a).0, CallFor(a).1);
              t in after &&
              after[t] == if Names(a, t) || (IsDefault(a) && states[t] == Frozen) then StateOf(a) else states[t]
    {
      SetOne(states, a, t);
    }
  }

  /** Every thread that was frozen ends as the list says. */
  ghost predicate AllEndAs(actions: seq<Action>, before: map<nat, ThreadState>, after: map<nat, ThreadState>) {
    forall t :: t in before && t < 0xFFFF_FFFE && before[t] == Frozen ==> t in after && EndsAs(actions, t, after[t])
  }

  lemma AllThreadsGet(actions: seq<Action>, states: map<nat, ThreadState>)
    requires AllActions(actions)
    ensures AllEndAs(actions, states, AfterCalls(states, CallsFor(actions)))
  {
    hide EndsAs, AfterCalls, CallsFor;
    forall t | t in states && t < 0xFFFF_FFFE && states[t] == Frozen
      ensures t in AfterCalls(states, CallsFor(actions)) && EndsAs(actions, t, AfterCalls(states, CallsFor(actions))[t])
    {
      ThreadsGet(actions, states, t);
    }
  }

  /** One call, on one thread. */
  lemma SetOne(states: map<nat, ThreadState>, a: Action, t: nat)
    requires a != NoAction && t in states && t < 0xFFFF_FFFE
    ensures var after := SetState(states, CallFor(a).0, CallFor(a).1);
            after.Keys == states.Keys &&
            after[t] == if Names(a, t) || (IsDefault(a) && states[t] == Frozen) then StateOf(a) else states[t]
  {
  }

  /** With the default actions last: a thread named by an action of its own gets the last such, every
      other thread the first default. */
  lemma DefaultsLast(named: seq<Action>, defaults: seq<Action>, t: nat, state: ThreadState)
    requires forall i :: 0 <= i < |named| ==> !IsDefault(named[i])
    requires defaults != [] && forall i :: 0 <= i < |defaults| ==> IsDefault(defaults[i])
    requires t < 0xFFFF_FFFE && EndsAs(named + defaults, t, state)
    ensures if exists i :: 0 <= i < |named| && Names(named[i], t) then
              exists i :: 0 <= i < |named| && Names(named[i], t) && state == StateOf(named[i]) &&
                          forall j :: i < j < |named| ==> !Names(named[j], t)
            else state == StateOf(defaults[0])
  {
    var all, n := named + defaults, |named|;
    assert forall i :: 0 <= i < n ==> all[i] == named[i];
    assert forall i :: n <= i < |all| ==> all[i] == defaults[i - n] && IsDefault(all[i]);
    hide StateOf;
    DefaultIsNoName(t);
    hide IsDefault, Names;
    if exists i :: 0 <= i < n && Names(named[i], t) {
      var i :| 0 <= i < n && Names(named[i], t);
      assert Names(all[i], t);
      var k :| 0 <= k < |all| && Names(all[k], t) && state == StateOf(all[k]) &&
               forall j :: k < j < |all| ==> !Names(all[j], t);
      assert k < n && named[k] == all[k];
      forall j | k < j < n ensures !Names(named[j], t) {
        assert all[j] == named[j];
      }
    } else {
      forall i | 0 <= i < |all| ensures !Names(all[i], t) {
      }
      assert IsDefault(all[n]);
      var k :| 0 <= k < |all| && IsDefault(all[k]) && state == StateOf(all[k]) &&
               forall j :: 0 <= j < k ==> !IsDefault(all[j]);
      assert k == n;
    }
  }

  lemma DefaultIsNoName(t: nat)
    requires t < 0xFFFF_FFFE
    ensures forall a :: IsDefault(a) ==> !Names(a, t)
  {
  }

  /** No action leaves every frozen thread frozen. */
  lemma NoneEndsOtherwise(states: map<nat, ThreadState>)
    ensures AllEndAs([], states, states)
  {
  }

  function ReplayedFrom(actions: seq<Action>, s: seq<byte>, w: nat): seq<Action> {
    actions + ReplayActions(s, w)
  }

  lemma ReplayStart(s: seq<byte>, w: nat)
    ensures ReplayedFrom([], s, w) == ReplayActions(s, w)
  {
    assert [] + ReplayActions(s, w) == ReplayActions(s, w);
  }

  lemma ReplayOneMore(done: seq<Action>, s: seq<byte>, w: nat)
    ensures s == [] || s[0] != SEMICOLON ==> ReplayedFrom(done, s, w) == done
    ensures s != [] && s[0] == SEMICOLON ==>
              var action := ParseAction(s[1..], w);
              ReplayedFrom(done, s, w)
              == ReplayedFrom(if action.value == NoAction then done else done + [action.value], action.rest, w)
  {
    hide ParseAction;
    if s != [] && s[0] == SEMICOLON {
      var action := ParseAction(s[1..], w);
      var rest := ReplayActions(action.rest, w);
      assert done + ([action.value] + rest) == done + [action.value] + rest;
      assert [] + rest == rest;
    } else {
      assert done + [] == done;
    }
  }

  /** The second pass: one call per action replayed, in packet order. */
  method SecondParsePass(buffer: Buffer, threads: Threads, w: nat) returns (resume: bool)
    requires buffer.Valid() && w >= 1
    modifies buffer`cur, threads
    ensures var actions := ReplayActions(old(buffer.Rest()), w);
            resume == (actions != []) &&
            threads.calls == old(threads.calls) + CallsFor(actions) &&
            threads.range == LastRange(actions, old(threads.range)) &&
            threads.states == AfterCalls(old(threads.states), CallsFor(actions)) &&
            AllEndAs(actions, old(threads.states), threads.states)
  {
    hide SetState, EndsAs, Names, IsDefault, StateOf, ActsOn, CallFor, AllEndAs;
    ghost var calls, range, states := threads.calls, threads.range, threads.states;
    ghost var done, s := [], buffer.Rest();
    ghost var all := ReplayActions(s, w);
    NoneReplayed(threads);
    ReplayStart(s, w);
    hide ReplayActions, ReplayedFrom, ParseAction, CallsFor, LastRange, AfterCalls, IsReplayed, Buffer.Rest;
    resume := false;
    var more := AtAction(buffer);
    while more
      invariant buffer.Valid() && all == ReplayedFrom(done, s, w)
      invariant more == (s != [] && s[0] == SEMICOLON) && (more ==> buffer.Rest() == s[1..])
      invariant resume == (done != []) && IsReplayed(done, calls, range, states, threads)
      decreases |s|
    {
      ReplayOneMore(done, s, w);
      var replayed;
      replayed, done := ReplayNext(buffer, threads, w, done, calls, range, states);
      resume := resume || replayed;
      s := buffer.Rest();
      more := AtAction(buffer);
    }
    ReplayOneMore(done, s, w);
    AllReplayed(done, calls, range, states, threads);
  }

  /** The condition of the loop: the semicolon of one more action, which it consumes. */
  method AtAction(buffer: Buffer) returns (b: bool)
    requires buffer.Valid()
    modifies buffer`cur
    ensures buffer.Valid()
    ensures var s := old(buffer.Rest());
            b == (s != [] && s[0] == SEMICOLON) && buffer.Rest() == if b then s[1..] else s
  {
    b := false;
    if buffer.BytesLeft() > 0 {
      var semicolon, _ := buffer.IsNextCharEqualTo(SEMICOLON);
      b := semicolon;
    }
  }

  /** What the calls for a list have made of the calls, range and states there were. */
  ghost predicate IsReplayed(done: seq<Action>, calls: seq<(nat, ThreadState)>, range: Option<(nat, nat)>,
                             states: map<nat, ThreadState>, threads: Threads)
    reads threads
  {
    AllActions(done) && threads.calls == calls + CallsFor(done) && threads.range == LastRange(done, range) &&
    threads.states == AfterCalls(states, CallsFor(done))
  }

  lemma AllReplayed(done: seq<Action>, calls: seq<(nat, ThreadState)>, range: Option<(nat, nat)>,
                    states: map<nat, ThreadState>, threads: Threads)
    requires IsReplayed(done, calls, range, states, threads)
    ensures AllActions(done) && threads.calls == calls + CallsFor(done) && threads.range == LastRange(done, range)
    ensures threads.states == AfterCalls(states, CallsFor(done)) && AllEndAs(done, states, threads.states)
  {
    hide AllEndAs, CallsFor, AfterCalls;
    AllThreadsGet(done, states);
  }

  lemma NoneReplayed(threads: Threads)
    ensures IsReplayed([], threads.calls, threads.range, threads.states, threads)
  {
    NoCalls(threads.calls, threads.range, threads.states);
  }

  /** One round of the second pass, from behind the semicolon. */
  method ReplayNext(buffer: Buffer, threads: Threads, w: nat, ghost done: seq<Action>, ghost calls: seq<(nat, ThreadState)>,
                    ghost range: Option<(nat, nat)>, ghost states: map<nat, ThreadState>)
    returns (replayed: bool, ghost next: seq<Action>)
    requires buffer.Valid() && w >= 1 && IsReplayed(done, calls, range, states, threads)
    modifies buffer`cur, threads
    ensures buffer.Valid() && IsReplayed(next, calls, range, states, threads)
    ensures var action := ParseAction(old(buffer.Rest()), w);
            buffer.Rest() == action.rest && replayed == (action.value != NoAction) &&
            next == if replayed then done + [action.value] else done
  {
    hide ParseAction, CallFor, CallsFor, LastRange, AfterCalls, SetState, ActsOn;
    var action, _ := ReadAction(buffer, w);
    replayed, next := action != NoAction, done;
    if replayed {
      OneMoreCall(done, action, calls, range, states);
      Replay(action, threads);
      next := done + [action];
    }
  }

  /** handleActionWithSetThreadState */
  method Replay(action: Action, threads: Threads)
    requires action != NoAction
    modifies threads
    ensures threads.calls == old(threads.calls) + [CallFor(action)]
    ensures threads.states == SetState(old(threads.states), CallFor(action).0, CallFor(action).1)
    ensures threads.range == if action.RangedSingleStep? then Some((action.start, action.end)) else old(threads.range)
    ensures ActsOn(action, old(threads.states), threads.states)
  {
    SetEach(threads.states, action);
    hide Names, IsDefault, SetState, ActsOn;
    match action
    case Continue(t) => threads.SetThreadState(ThreadCode(t), Thawed);
    case SingleStep(t) => threads.SetThreadState(ThreadCode(t), SingleStepping);
    case RangedSingleStep(t, start, end) =>
      threads.SetThreadState(ThreadCode(t), SingleStepping);
      threads.range := Some((start, end));
  }

  /** What the command comes to. */
  datatype Outcome =
    | Refused                    // the error goes out and nothing runs
    | StopReported               // stepping over a hardcoded breakpoint was the whole step
    | Resumed                    // the thread states are set and the program runs
    | Applied(action: Action)    // without thread states: one action for the halted thread

  /** How a text is answered. */
  ghost predicate IsOutcome(outcome: Outcome, s: seq<byte>, rtos: Rtos, advances: bool, w: nat) {
    var list := ParseActions(s, w);
    if list.LeftOver? || list == WellFormed([]) then outcome == Refused
    else if !rtos.setThreadStateSupported then
      if list.actions == [] then outcome == Refused
      else outcome.Applied? && outcome.action != NoAction &&
           IsSelected(outcome.action, list.actions, WantsStep(list.actions, rtos), rtos)
    else if advances && WantsStep(list.actions, rtos) then outcome == StopReported
    else outcome == if ReplayActions(s, w) == [] then Refused else Resumed
  }

  /** What the handler's error replies are for: exactly the malformed and the empty lists are
      refused. */
  ghost predicate RefusesMalformed(outcome: Outcome, list: ActionList) {
    outcome.Refused? <==> !list.WellFormed? || list.actions == []
  }

  /** Exactly when a list is refused as it should be: always, except that a malformed action does
      not stop the actions before it, nor, where thread states can be set, those that behind it or
      in its place are still read as actions. */
  lemma MalformedIsRefusedWhen(outcome: Outcome, s: seq<byte>, rtos: Rtos, advances: bool, w: nat)
    requires IsOutcome(outcome, s, rtos, advances, w)
    ensures RefusesMalformed(outcome, ParseActions(s, w))
       <==> (ParseActions(s, w).BadAction? ==>
               if rtos.setThreadStateSupported then OnlyUnknownLetters(s) else ParseActions(s, w).actions == [])
  {
    ReplayStartsWithParsed(s, w);
    NothingReplayedWhen(s, w);
    hide ParseActions, ReplayActions, OnlyUnknownLetters, IsSelected;
    assert WantsStep(ParseActions(s, w).actions, rtos) ==> ParseActions(s, w).actions != [];
  }

  /** handleVContCommand, from behind the command's name. advances says whether the halted thread
      stands on a hardcoded breakpoint that is about to be stepped over. */
  method HandleVCont(mri: MriCore, rtos: Rtos, threads: Threads, advances: bool, w: nat) returns (outcome: Outcome)
    requires mri.Valid() && w >= 1
    requires mri.packet.dataBuffer.start + |COMMAND_NAME| <= mri.packet.dataBuffer.cur <= mri.packet.dataBuffer.end
    modifies mri.packet.packetBuffer, mri.packet.dataBuffer, mri.platformBuffer, threads
    ensures mri.Valid()
    ensures outcome.Refused? ==> mri.packet.dataBuffer.View() == Response.Text(['E' as int, '0' as int, '1' as int])
    ensures IsOutcome(outcome, old(mri.packet.dataBuffer.Rest()), rtos, advances, w)
    ensures var actions := if outcome.Resumed? then ReplayActions(old(mri.packet.dataBuffer.Rest()), w) else [];
            ThreadsReplayed(actions, old(threads.calls), old(threads.range), old(threads.states), threads)
  {
    Untouched(threads);
    hide ThreadsReplayed, ParseActions, ReplayActions, IsSelected, WantsStep;
    var buffer := mri.packet.dataBuffer;
    var replayBuffer := new Buffer(buffer.mem, buffer.start, buffer.end - buffer.start);
    replayBuffer.cur := buffer.cur;
    ghost var s := buffer.Rest();
    ErrorFits(mri.platformBuffer.Length - 4);
    var continueAction, stepAction, exc := FirstParsePass(mri, rtos, w);
    if exc != NoException {
      return Refused;
    }
    ghost var list := ParseActions(s, w);
    KeptWhen(continueAction, stepAction, list.actions, rtos);
    ReplayStartsWithParsed(s, w);
    if rtos.setThreadStateSupported {
      assert replayBuffer.mem[4..] == old(mri.platformBuffer[4..]);
      assert replayBuffer.Rest() == s;
      outcome := HandleWithSetThreadState(replayBuffer, threads, stepAction, advances, w);
    } else {
      outcome := HandleWithoutThreadStates(mri, continueAction, stepAction);
    }
  }

  /** handleSingleStepAndContinueCommandsWithSetThreadState */
  method HandleWithSetThreadState(buffer: Buffer, threads: Threads, stepAction: Action, advances: bool, w: nat)
    returns (outcome: Outcome)
    requires buffer.Valid() && w >= 1
    modifies buffer`cur, threads
    ensures var all := ReplayActions(old(buffer.Rest()), w);
            outcome == (if stepAction != NoAction && advances then StopReported else if all == [] then Refused else Resumed) &&
            ThreadsReplayed(if outcome.Resumed? then all else [], old(threads.calls), old(threads.range),
                            old(threads.states), threads)
  {
    hide ReplayActions;
    Untouched(threads);
    if stepAction != NoAction && advances {
      return StopReported;
    }
    hide ThreadsReplayed;
    ghost var calls, range, states := threads.calls, threads.range, threads.states;
    ghost var all := ReplayActions(buffer.Rest(), w);
    var resume := SecondParsePass(buffer, threads, w);
    AreReplayed(all, calls, range, states, threads);
    outcome := if resume then Resumed else Refused;
  }

  /** handleSingleStepAndContinueCommands */
  method HandleWithoutThreadStates(mri: MriCore, continueAction: Action, stepAction: Action) returns (outcome: Outcome)
    requires mri.Valid()
    modifies mri.packet.packetBuffer, mri.packet.dataBuffer, mri.platformBuffer
    ensures mri.Valid()
    ensures outcome == if stepAction != NoAction then Applied(stepAction)
                       else if continueAction != NoAction then Applied(continueAction)
                       else Refused
    ensures outcome.Refused? ==>
              mri.packet.dataBuffer.View() == Put(Response.Text([]), mri.platformBuffer.Length - 4, INVALID_ARGUMENT_ERROR)
  {
    var action := if stepAction != NoAction then stepAction else continueAction;
    if action == NoAction {
      var _ := mri.PrepareStringResponse(INVALID_ARGUMENT_ERROR);
      return Refused;
    }
    return Applied(action);
  }

  /** A list has been carried out on the threads: the calls made, the range set, what became of each. */
  ghost predicate ThreadsReplayed(actions: seq<Action>, calls: seq<(nat, ThreadState)>, range: Option<(nat, nat)>,
                                  states: map<nat, ThreadState>, threads: Threads)
    reads threads
  {
    AllActions(actions) && threads.calls == calls + CallsFor(actions) && threads.range == LastRange(actions, range) &&
    (actions == [] ==> threads.states == states) && AllEndAs(actions, states, threads.states)
  }

  lemma Untouched(threads: Threads)
    ensures ThreadsReplayed([], threads.calls, threads.range, threads.states, threads)
  {
    NoneEndsOtherwise(threads.states);
    NoCalls(threads.calls, threads.range, threads.states);
  }

  lemma AreReplayed(actions: seq<Action>, calls: seq<(nat, ThreadState)>, range: Option<(nat, nat)>,
                    states: map<nat, ThreadState>, threads: Threads)
    requires AllActions(actions) && threads.calls == calls + CallsFor(actions) && threads.range == LastRange(actions, range)
    requires threads.states == AfterCalls(states, CallsFor(actions))
    ensures ThreadsReplayed(actions, calls, range, states, threads)
  {
    hide AllEndAs;
    AllThreadsGet(actions, states);
  }

  lemma ErrorFits(capacity: nat)
    ensures capacity >= 3 ==> Put(Response.Text([]), capacity, INVALID_ARGUMENT_ERROR) == Response.Text(INVALID_ARGUMENT_ERROR)
  {
    assert [] + INVALID_ARGUMENT_ERROR == INVALID_ARGUMENT_ERROR;
  }
}
