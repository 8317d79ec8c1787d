/** The frames of the GDB Remote Serial Protocol (section E.1 of "Debugging with GDB") as
    mri/core/packet.c sends and receives them: the receiver as an automaton over single
    characters, and what it guarantees over every stream. */
module PacketProtocol {
  import opened Common
  import opened Hex

  const DOLLAR: byte := '$' as int
  const HASH: byte := '#' as int
  const BRACE: byte := '}' as int
  const PLUS: byte := '+' as int
  const MINUS: byte := '-' as int

  predicate IsSpecial(c: byte) {
    c == DOLLAR || c == HASH || c == BRACE
  }

  /** c ^ 0x20 */
  function FlipCase(c: byte): (r: byte) {
    if c / 32 % 2 == 0 then c + 32 else c - 32
  }

  /** It is the exclusive or with 0x20. */
  lemma FlipIsXor(c: bv8)
    ensures FlipCase(c as byte) == (c ^ 0x20) as byte
  {
    assert (c as int) / 32 % 2 == 0 <==> c & 0x20 == 0;
  }

  /** unsigned char addition, which wraps at 256. */
  function Add(a: byte, b: byte): byte {
    if a + b < 256 then a + b else a + b - 256
  }

  lemma AddAssociates(a: byte, b: byte, c: byte)
    ensures Add(Add(a, b), c) == Add(a, Add(b, c)) && Add(a, 0) == a && Add(0, a) == a
  {
  }

  /** The checksum of a raw body. */
  function Sum(s: seq<byte>): byte {
    if s == [] then 0 else Add(Sum(s[..|s| - 1]), s[|s| - 1])
  }

  /** The checksum is the total of the bytes modulo 256. */
  lemma {:induction false} SumIsTotal(s: seq<byte>)
    ensures Sum(s) == Total(s) % 256
  {
    if s != [] {
      var n := |s| - 1;
      SumIsTotal(s[..n]);
      TotalNext(s[..n], s[n]);
      assert s[..n] + [s[n]] == s;
    }
  }

  // ---------------------------------------------------------------- frames

  function EscapeChar(c: byte): (s: seq<byte>)
    ensures 1 <= |s| <= 2
  {
    if IsSpecial(c) then [BRACE, FlipCase(c)] else [c]
  }

  function Escape(p: seq<byte>): seq<byte> {
    if p == [] then [] else Escape(p[..|p| - 1]) + EscapeChar(p[|p| - 1])
  }

  /** The payload of a raw body, and whether it ends in an escape still open. */
  function Unescape(raw: seq<byte>): (r: (seq<byte>, bool))
    ensures |r.0| + (if r.1 then 1 else 0) <= |raw|
    ensures |r.0| == |raw| ==> BRACE !in raw && r.0 == raw
  {
    if raw == [] then ([], false)
    else
      var n := |raw| - 1;
      var (data, open) := Unescape(raw[..n]);
      assert raw == raw[..n] + [raw[n]];
      if open then (data + [FlipCase(raw[n])], false)
      else if raw[n] == BRACE then (data, true)
      else (data + [raw[n]], false)
  }

  /** Whether a body can be told from the frame around it. */
  predicate IsRawBody(raw: seq<byte>) {
    DOLLAR !in raw && HASH !in raw
  }

  function FrameText(raw: seq<byte>): seq<byte> {
    [DOLLAR] + raw + [HASH] + ByteAsHex(Sum(raw))
  }

  /** A frame written out: between its marks the body, and behind them two lower-case hex digits
      that spell the total of the body modulo 256. */
  lemma FrameSpellsTotal(raw: seq<byte>) returns (hi: byte, lo: byte)
    ensures FrameText(raw) == ['$' as int] + raw + ['#' as int, hi, lo]
    ensures HexCharToNibble(hi) >= 0 && HexCharToNibble(lo) >= 0
    ensures 16 * HexCharToNibble(hi) + HexCharToNibble(lo) == Total(raw) % 256
    ensures IsWritten(hi) && IsWritten(lo)
  {
    var hex := ByteAsHex(Sum(raw));
    hi, lo := hex[0], hex[1];
    SumIsTotal(raw);
    ByteHexRoundTrip(Sum(raw));
  }

  /** The frame a correct peer sends for a payload. */
  function Encode(p: seq<byte>): seq<byte> {
    FrameText(Escape(p))
  }

  datatype Frame = Frame(payload: seq<byte>, calculated: byte, expected: byte) {
    predicate Valid() {
      expected == calculated
    }
  }

  /** The checksum two characters announce; anything but two hex digits forces a mismatch. */
  function Expected(calculated: byte, hi: byte, lo: byte): (e: byte)
    ensures !(IsHexDigit(hi) && IsHexDigit(lo)) ==> e != calculated
  {
    if IsHexDigit(hi) && IsHexDigit(lo) then HexAsByte(hi, lo) else 255 - calculated
  }

  // ---------------------------------------------------------------- the receiver

  /** Where the receiver is: hunting for '$', inside a body, after an escape, before either digit. */
  datatype Receiver =
    | Hunting
    | Body(data: seq<byte>, sum: byte)
    | Escaped(data: seq<byte>, sum: byte)
    | Digit1(data: seq<byte>, sum: byte)
    | Digit2(data: seq<byte>, sum: byte, hi: byte)

  function Opened(c: byte): Receiver {
    if c == DOLLAR then Body([], 0) else Hunting
  }

  /** One character: the next state, and the frame it completes if any. */
  function Step(capacity: nat, st: Receiver, c: byte): (Receiver, Option<Frame>) {
    match st
    case Hunting => (Opened(c), None)
    case Body(data, sum) =>
      if c == DOLLAR then (Body([], 0), None)
      else if c == HASH then (Digit1(data, sum), None)
      else if |data| >= capacity then (Hunting, None)
      else if c == BRACE then (Escaped(data, Add(sum, c)), None)
      else (Body(data + [c], Add(sum, c)), None)
    case Escaped(data, sum) =>
      if c == DOLLAR then (Body([], 0), None)
      else if c == HASH then (Digit1(data, sum), None)
      else (Body(data + [FlipCase(c)], Add(sum, c)), None)
    case Digit1(data, sum) => (Digit2(data, sum, c), None)
    case Digit2(data, sum, hi) => (Opened(c), Some(Frame(data, sum, Expected(sum, hi, c))))
  }

  /** A whole stream: the final state and every frame completed, in order. */
  function Run(capacity: nat, st: Receiver, cs: seq<byte>): (Receiver, seq<Frame>) {
    if cs == [] then (st, [])
    else
      var (st', frames) := Run(capacity, st, cs[..|cs| - 1]);
      var (st'', f) := Step(capacity, st', cs[|cs| - 1]);
      (st'', frames + (if f.Some? then [f.value] else []))
  }

  lemma {:induction false} RunConcat(capacity: nat, st: Receiver, a: seq<byte>, b: seq<byte>)
    ensures var (mid, first) := Run(capacity, st, a);
            var (end, second) := Run(capacity, mid, b);
            Run(capacity, st, a + b) == (end, first + second)
    decreases |b|
  {
    hide Step;
    if b == [] {
      assert a + b == a;
      assert Run(capacity, st, a).1 + [] == Run(capacity, st, a).1;
    } else {
      var n := |b| - 1;
      RunConcat(capacity, st, a, b[..n]);
      assert (a + b)[..|a + b| - 1] == a + b[..n];
      var (mid, first) := Run(capacity, st, a);
      var (_, second) := Run(capacity, mid, b[..n]);
      var f := Step(capacity, Run(capacity, mid, b[..n]).0, b[n]).1;
      var last := if f.Some? then [f.value] else [];
      assert first + (second + last) == (first + second) + last;
    }
  }

  /** Characters that complete no frame only move the state. */
  lemma RunQuiet(capacity: nat, st: Receiver, a: seq<byte>, b: seq<byte>)
    requires Run(capacity, st, a).1 == []
    ensures Run(capacity, st, a + b) == Run(capacity, Run(capacity, st, a).0, b)
  {
    hide Run;
    RunConcat(capacity, st, a, b);
    var frames := Run(capacity, Run(capacity, st, a).0, b).1;
    assert [] + frames == frames;
  }

  /** The first character of a stream, then the rest. */
  lemma RunHead(capacity: nat, st: Receiver, c: byte, rest: seq<byte>)
    ensures var (st', f) := Step(capacity, st, c);
            var (end, frames) := Run(capacity, st', rest);
            Run(capacity, st, [c] + rest) == (end, if f.Some? then [f.value] + frames else frames)
  {
    hide Step, Run;
    RunConcat(capacity, st, [c], rest);
    RunOne(capacity, st, c);
    var (st', f) := Step(capacity, st, c);
    assert [] + Run(capacity, st', rest).1 == Run(capacity, st', rest).1;
  }

  lemma RunOne(capacity: nat, st: Receiver, c: byte)
    ensures var (st', f) := Step(capacity, st, c);
            Run(capacity, st, [c]) == (st', if f.Some? then [f.value] else [])
  {
    hide Step;
    assert [c][..0] == [];
    var last := Step(capacity, st, c).1;
    assert [] + (if last.Some? then [last.value] else []) == if last.Some? then [last.value] else [];
  }

  // ---------------------------------------------------------------- unescaping undoes escaping

  lemma FlipSpecial(c: byte)
    requires IsSpecial(c)
    ensures !IsSpecial(FlipCase(c)) && FlipCase(FlipCase(c)) == c
  {
  }

  lemma {:induction false} UnescapeUndoesEscape(p: seq<byte>)
    ensures IsRawBody(Escape(p)) && Unescape(Escape(p)) == (p, false)
  {
    hide Unescape, EscapeChar;
    if p == [] {
      UnescapeEmpty();
    } else {
      var n := |p| - 1;
      UnescapeUndoesEscape(p[..n]);
      UnescapeChar(Escape(p[..n]), p[n]);
      assert p[..n] + [p[n]] == p;
    }
  }

  lemma UnescapeEmpty()
    ensures Unescape([]) == ([], false)
  {
  }

  lemma UnescapeChar(t: seq<byte>, c: byte)
    requires IsRawBody(t) && !Unescape(t).1
    ensures IsRawBody(t + EscapeChar(c)) && Unescape(t + EscapeChar(c)) == (Unescape(t).0 + [c], false)
  {
    if IsSpecial(c) {
      FlipSpecial(c);
      hide FlipCase, Unescape;
      var x := FlipCase(c);
      UnescapeNext(t, BRACE);
      UnescapeNext(t + [BRACE], x);
      assert t + [BRACE] + [x] == t + [BRACE, x];
    } else {
      UnescapeNext(t, c);
    }
  }

  lemma UnescapeNext(t: seq<byte>, c: byte)
    ensures Unescape(t + [c])
         == var (data, open) := Unescape(t);
            if open then (data + [FlipCase(c)], false)
            else if c == BRACE then (data, true)
            else (data + [c], false)
  {
    hide FlipCase;
    assert (t + [c])[..|t|] == t;
  }

  lemma SumNext(t: seq<byte>, c: byte)
    ensures Sum(t + [c]) == Add(Sum(t), c)
  {
    hide Add;
    assert (t + [c])[..|t|] == t;
  }

  lemma SumOne(c: byte)
    ensures Sum([c]) == c
  {
    assert [c][..0] == [];
    AddAssociates(c, 0, 0);
  }

  /** One altered byte always alters the checksum. */
  lemma OneByteAltersSum(a: seq<byte>, x: byte, y: byte, b: seq<byte>)
    ensures Sum(a + [x] + b) == Sum(a + [y] + b) <==> x == y
  {
    hide Sum, Add;
    SumConcat(a + [x], b);
    SumConcat(a, [x]);
    SumOne(x);
    SumConcat(a + [y], b);
    SumConcat(a, [y]);
    SumOne(y);
    if Sum(a + [x] + b) == Sum(a + [y] + b) {
      AddCancels(Sum(a), x, y, Sum(b));
    }
  }

  lemma AddCancels(a: byte, x: byte, y: byte, b: byte)
    requires Add(Add(a, x), b) == Add(Add(a, y), b)
    ensures x == y
  {
    assert Add(a, x) == Add(a, y);
  }

  lemma {:induction false} SumConcat(a: seq<byte>, b: seq<byte>)
    ensures Sum(a + b) == Add(Sum(a), Sum(b))
    decreases |b|
  {
    hide Add;
    AddAssociates(Sum(a), 0, 0);
    if b == [] {
      assert a + b == a;
    } else {
      AddAssociates(Sum(a), Sum(b[..|b| - 1]), b[|b| - 1]);
      SumConcat(a, b[..|b| - 1]);
      assert (a + b)[..|a + b| - 1] == a + b[..|b| - 1];
    }
  }

  /** The room a raw body takes in the data buffer; an escape needs its room before its character. */
  function Needs(raw: seq<byte>): nat {
    |Unescape(raw).0| + (if Unescape(raw).1 then 1 else 0)
  }

  function AfterRaw(raw: seq<byte>): Receiver {
    var (data, open) := Unescape(raw);
    if open then Escaped(data, Sum(raw)) else Body(data, Sum(raw))
  }

  /** The receiver's path through any raw body: a body that does not fit is dropped silently. */
  lemma {:induction false} RunRaw(capacity: nat, raw: seq<byte>)
    requires IsRawBody(raw)
    ensures Run(capacity, Body([], 0), raw)
         == (if Needs(raw) <= capacity then AfterRaw(raw) else Hunting, [])
  {
    hide FlipCase, Add;
    if raw != [] {
      var n := |raw| - 1;
      RunRaw(capacity, raw[..n]);
      assert Run(capacity, Body([], 0), raw).1 == [];
    }
  }

  lemma NotDollar(c: byte)
    ensures IsHexDigit(c) ==> c != DOLLAR && c != HASH
  {
  }

  lemma RunToLastDigit(capacity: nat, raw: seq<byte>, hi: byte)
    requires IsRawBody(raw) && Needs(raw) <= capacity
    ensures Run(capacity, Body([], 0), raw + [HASH, hi]) == (Digit2(Unescape(raw).0, Sum(raw), hi), [])
  {
    hide Run, Unescape, Sum;
    RunRaw(capacity, raw);
    RunQuiet(capacity, Body([], 0), raw, [HASH, hi]);
    assert [HASH, hi] == [HASH] + [hi];
    RunHead(capacity, AfterRaw(raw), HASH, [hi]);
    RunOne(capacity, Digit1(Unescape(raw).0, Sum(raw)), hi);
  }

  /** From just after its '$', a frame within capacity is received whole. */
  lemma RunFrame(capacity: nat, raw: seq<byte>, hi: byte, lo: byte)
    requires IsRawBody(raw) && lo != DOLLAR && Needs(raw) <= capacity
    ensures Run(capacity, Body([], 0), raw + [HASH, hi, lo])
         == (Hunting, [Frame(Unescape(raw).0, Sum(raw), Expected(Sum(raw), hi, lo))])
  {
    hide Run, Unescape, Sum, Expected;
    RunToLastDigit(capacity, raw, hi);
    RunQuiet(capacity, Body([], 0), raw + [HASH, hi], [lo]);
    RunOne(capacity, Digit2(Unescape(raw).0, Sum(raw), hi), lo);
    assert raw + [HASH, hi] + [lo] == raw + [HASH, hi, lo];
  }

  lemma RunBody(capacity: nat, p: seq<byte>)
    requires |p| <= capacity
    ensures Run(capacity, Body([], 0), Escape(p) + [HASH] + ByteAsHex(Sum(Escape(p))))
         == (Hunting, [Frame(p, Sum(Escape(p)), Sum(Escape(p)))])
  {
    var raw := Escape(p);
    var hex := ByteAsHex(Sum(raw));
    UnescapeUndoesEscape(p);
    ByteHexRoundTrip(Sum(raw));
    NotDollar(hex[1]);
    RunFrame(capacity, raw, hex[0], hex[1]);
    assert raw + [HASH] + hex == raw + [HASH, hex[0], hex[1]];
  }

  // ---------------------------------------------------------------- resynchronisation

  function Good(p: seq<byte>): Frame {
    Frame(p, Sum(Escape(p)), Sum(Escape(p)))
  }

  /** Without a '$' nothing starts: noise after the hunt began changes nothing. */
  lemma {:induction false} RunNoise(capacity: nat, noise: seq<byte>)
    requires DOLLAR !in noise
    ensures Run(capacity, Hunting, noise) == (Hunting, [])
  {
    if noise != [] {
      var n := |noise| - 1;
      RunNoise(capacity, noise[..n]);
      assert Step(capacity, Hunting, noise[n]) == (Hunting, None);
      assert Run(capacity, Hunting, noise).1 == [];
    }
  }

  /** Whatever the receiver was doing, one frame brings it back to hunting, and the frame is
      received exactly when the receiver was not waiting for a first checksum digit: there the
      frame's own '$' is taken for the digit. */
  lemma Resynchronises(capacity: nat, st: Receiver, p: seq<byte>)
    requires |p| <= capacity
    ensures Run(capacity, st, Encode(p)).0 == Hunting
    ensures (st.Hunting? || st.Body? || st.Escaped?) ==> Run(capacity, st, Encode(p)).1 == [Good(p)]
    ensures st.Digit2? ==> Run(capacity, st, Encode(p)).1 == [Frame(st.data, st.sum, 255 - st.sum), Good(p)]
    ensures st.Digit1? ==> Run(capacity, st, Encode(p)).1 == [Frame(st.data, st.sum, 255 - st.sum)]
  {
    hide Run, Escape, Sum, ByteAsHex;
    var rest := Escape(p) + [HASH] + ByteAsHex(Sum(Escape(p)));
    assert Encode(p) == [DOLLAR] + rest;
    RunHead(capacity, st, DOLLAR, rest);
    NotDollar(DOLLAR);
    if st.Digit1? {
      LostFrame(capacity, Digit2(st.data, st.sum, DOLLAR), p);
    } else {
      RunBody(capacity, p);
      assert Step(capacity, st, DOLLAR).0 == Body([], 0);
    }
  }

  lemma LostFrame(capacity: nat, st: Receiver, p: seq<byte>)
    requires st.Digit2? && st.hi == DOLLAR
    ensures Run(capacity, st, Escape(p) + [HASH] + ByteAsHex(Sum(Escape(p))))
         == (Hunting, [Frame(st.data, st.sum, 255 - st.sum)])
  {
    var hex := ByteAsHex(Sum(Escape(p)));
    ByteHexRoundTrip(Sum(Escape(p)));
    UnescapeUndoesEscape(p);
    hide Run, Escape, Sum, ByteAsHex;
    var rest := Escape(p) + [HASH] + hex;
    NotDollar(hex[0]);
    NotDollar(hex[1]);
    assert DOLLAR !in rest;
    NotDollar(DOLLAR);
    assert rest == [rest[0]] + rest[1..];
    RunHead(capacity, st, rest[0], rest[1..]);
    RunNoise(capacity, rest[1..]);
    assert [Frame(st.data, st.sum, 255 - st.sum)] + [] == [Frame(st.data, st.sum, 255 - st.sum)];
  }

  ghost predicate LastIs(frames: seq<Frame>, f: Frame) {
    frames != [] && frames[|frames| - 1] == f
  }

  /** After any stream at all, the next frame is received if and only if the stream did not stop
      right after the '#' that closes a body; a second copy is then received in every case. */
  lemma ResynchronisesAfterAnyStream(capacity: nat, stream: seq<byte>, p: seq<byte>)
    requires |p| <= capacity
    ensures LastIs(Run(capacity, Hunting, stream + Encode(p)).1, Good(p))
       <==> !Run(capacity, Hunting, stream).0.Digit1?
    ensures LastIs(Run(capacity, Hunting, stream + Encode(p) + Encode(p)).1, Good(p))
    ensures Run(capacity, Hunting, stream).0.Digit1? ==> stream != [] && stream[|stream| - 1] == HASH
  {
    hide Encode, Step, Sum, Run;
    var st := Run(capacity, Hunting, stream).0;
    RunConcat(capacity, Hunting, stream, Encode(p));
    Resynchronises(capacity, st, p);
    RunConcat(capacity, Hunting, stream + Encode(p), Encode(p));
    Resynchronises(capacity, Hunting, p);
    if st.Digit1? {
      BeforeDigit1(capacity, stream);
    }
  }

  /** Such a stream: after an empty body cut off behind its '#', the next frame is not received. */
  lemma FirstDigitSwallowsFrame(capacity: nat, p: seq<byte>)
    requires |p| <= capacity
    ensures Run(capacity, Hunting, [DOLLAR, HASH]).0 == Digit1([], 0)
    ensures !LastIs(Run(capacity, Hunting, [DOLLAR, HASH] + Encode(p)).1, Good(p))
  {
    hide Run, Encode, Sum;
    assert [DOLLAR, HASH] == [DOLLAR] + [HASH];
    RunHead(capacity, Hunting, DOLLAR, [HASH]);
    RunOne(capacity, Body([], 0), HASH);
    ResynchronisesAfterAnyStream(capacity, [DOLLAR, HASH], p);
  }

  lemma BeforeDigit1(capacity: nat, stream: seq<byte>)
    requires Run(capacity, Hunting, stream).0.Digit1?
    ensures stream != [] && stream[|stream| - 1] == HASH
  {
  }

  // ---------------------------------------------------------------- every frame is on the wire

  /** cs[k..m] is '$' followed by a raw body with this decoding and checksum. */
  ghost predicate BodyAt(cs: seq<byte>, k: nat, m: nat, data: seq<byte>, sum: byte) {
    k < m <= |cs| && cs[k] == DOLLAR && IsRawBody(cs[k + 1..m]) &&
    Unescape(cs[k + 1..m]).0 == data && Sum(cs[k + 1..m]) == sum
  }

  /** What the receiver's state says about the characters it has read, its frame starting at k. */
  ghost predicate Explains(st: Receiver, cs: seq<byte>, k: nat) {
    match st
    case Hunting => true
    case Body(data, sum) => BodyAt(cs, k, |cs|, data, sum) && !Unescape(cs[k + 1..]).1
    case Escaped(data, sum) => BodyAt(cs, k, |cs|, data, sum) && Unescape(cs[k + 1..]).1
    case Digit1(data, sum) =>
      |cs| >= 1 && cs[|cs| - 1] == HASH && BodyAt(cs, k, |cs| - 1, data, sum)
    case Digit2(data, sum, hi) =>
      |cs| >= 2 && cs[|cs| - 2] == HASH && cs[|cs| - 1] == hi && BodyAt(cs, k, |cs| - 2, data, sum)
  }

  lemma {:induction false} StateIsExplained(capacity: nat, cs: seq<byte>) returns (k: nat)
    ensures Explains(Run(capacity, Hunting, cs).0, cs, k)
  {
    k := 0;
    if cs != [] {
      var n := |cs| - 1;
      var st := Run(capacity, Hunting, cs[..n]).0;
      k := StateIsExplained(capacity, cs[..n]);
      if cs[n] == DOLLAR && !st.Digit1? {
        k := n;
        assert cs[n + 1..] == [];
      } else {
        StepIsExplained(capacity, st, cs, k);
      }
    }
  }

  lemma StepIsExplained(capacity: nat, st: Receiver, cs: seq<byte>, k: nat)
    requires cs != [] && Explains(st, cs[..|cs| - 1], k)
    requires cs[|cs| - 1] != DOLLAR || st.Digit1?
    ensures Explains(Step(capacity, st, cs[|cs| - 1]).0, cs, k)
  {
    hide FlipCase, Add, Unescape, Sum, Expected;
    var n := |cs| - 1;
    var c := cs[n];
    if st.Body? || st.Escaped? {
      var raw := cs[k + 1..n];
      assert cs[..n][k + 1..] == raw && cs[..n][k + 1..n] == raw;
      assert cs[k + 1..] == raw + [c] && cs[k + 1..n + 1] == raw + [c];
      UnescapeNext(raw, c);
      SumNext(raw, c);
    } else if st.Digit1? {
      assert cs[..n][k + 1..n - 1] == cs[k + 1..n - 1];
    }
  }
}
