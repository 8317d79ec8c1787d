/** The temperature filter of src/libs/Adc.cpp with OVERSAMPLE 2: a window of 32 samples per
    channel, sorted and trimmed to its middle 16, and a four-element moving average. */
module AdcFilter {
  import opened Common

  const NUM_CHANNELS := 6
  const NUM_SAMPLES := 32
  /** A 12-bit sample, and the largest reading: 4095 << OVERSAMPLE. */
  const MAX_SAMPLE := 4095
  const MAX_VALUE := 16380

  type uint16 = x: int | 0 <= x < 0x1_0000 witness 0

  /** (value >> 4) & 0xFFF, the reading in the data register. */
  function TwelveBits(value: nat): (r: uint16)
    ensures r <= MAX_SAMPLE
  {
    value / 16 % 4096
  }

  /** Bit k of a register. */
  function Bit(x: nat, k: nat): nat
    decreases k
  {
    if k == 0 then x % 2 else Bit(x / 2, k - 1)
  }

  function Power2(n: nat): (m: nat)
    ensures m > 0
  {
    if n == 0 then 1 else 2 * Power2(n - 1)
  }

  /** A sample is bits 4 to 15 of the register and nothing else. */
  lemma TwelveBitsOfRegister(value: nat, k: nat)
    ensures Bit(TwelveBits(value), k) == if k < 12 then Bit(value, k + 4) else 0
  {
    assert Power2(12) == 4096;
    LowBits(value / 16, 12, k);
    assert Bit(value, k + 4) == Bit(value / 2, k + 3) == Bit(value / 2 / 2, k + 2) == Bit(value / 2 / 2 / 2, k + 1);
    assert value / 2 / 2 / 2 / 2 == value / 16;
  }

  lemma {:induction false} LowBits(x: nat, n: nat, k: nat)
    ensures Bit(x % Power2(n), k) == if k < n then Bit(x, k) else 0
    decreases n
  {
    if n == 0 {
      NoBits(k);
    } else {
      HalfRemainder(x, Power2(n - 1));
      if k > 0 {
        LowBits(x / 2, n - 1, k - 1);
      }
    }
  }

  lemma {:induction false} NoBits(k: nat)
    ensures Bit(0, k) == 0
  {
    if k > 0 { NoBits(k - 1); }
  }

  lemma HalfRemainder(x: nat, m: nat)
    requires m > 0
    ensures x % (2 * m) / 2 == x / 2 % m && x % (2 * m) % 2 == x % 2
  {
    var q, r := x / (2 * m), x % (2 * m);
    assert x == 2 * (q * m) + r;
    RemainderIsUnique(x / 2, q, r / 2, m);
  }

  // ---------------------------------------------------------------- sorting

  ghost predicate IsSorted(s: seq<uint16>) {
    forall i, j :: 0 <= i < j < |s| ==> s[i] <= s[j]
  }

  function Insert(x: uint16, s: seq<uint16>): (r: seq<uint16>)
    ensures |r| == |s| + 1
  {
    if s == [] || x <= s[0] then [x] + s else [s[0]] + Insert(x, s[1..])
  }

  /** What std::sort leaves in the buffer. */
  function Sorted(s: seq<uint16>): (r: seq<uint16>)
    ensures |r| == |s|
  {
    if s == [] then [] else Insert(s[0], Sorted(s[1..]))
  }

  function CountBelow(s: seq<uint16>, x: int): (n: nat)
    ensures n <= |s|
  {
    if s == [] then 0 else CountBelow(s[1..], x) + if s[0] < x then 1 else 0
  }

  function CountAbove(s: seq<uint16>, x: int): (n: nat)
    ensures n <= |s|
  {
    if s == [] then 0 else CountAbove(s[1..], x) + if s[0] > x then 1 else 0
  }

  lemma {:induction false} InsertPermutes(x: uint16, s: seq<uint16>)
    ensures multiset(Insert(x, s)) == multiset(s) + multiset{x}
  {
    if s != [] && x > s[0] {
      InsertPermutes(x, s[1..]);
      assert s == [s[0]] + s[1..];
    }
  }

  lemma {:induction false} InsertAbove(x: uint16, s: seq<uint16>, lo: uint16)
    requires lo <= x && forall j :: 0 <= j < |s| ==> lo <= s[j]
    ensures forall j :: 0 <= j < |Insert(x, s)| ==> lo <= Insert(x, s)[j]
  {
    if s != [] && x > s[0] {
      InsertAbove(x, s[1..], lo);
    }
  }

  lemma {:induction false} InsertSorts(x: uint16, s: seq<uint16>)
    requires IsSorted(s)
    ensures IsSorted(Insert(x, s))
  {
    if s != [] && x > s[0] {
      InsertSorts(x, s[1..]);
      InsertAbove(x, s[1..], s[0]);
    }
  }

  lemma {:induction false} SortedIsSortedPermutation(s: seq<uint16>)
    ensures IsSorted(Sorted(s)) && multiset(Sorted(s)) == multiset(s)
  {
    if s != [] {
      SortedIsSortedPermutation(s[1..]);
      InsertSorts(s[0], Sorted(s[1..]));
      InsertPermutes(s[0], Sorted(s[1..]));
      assert s == [s[0]] + s[1..];
    }
  }

  lemma {:induction false} InsertCounts(y: uint16, s: seq<uint16>, x: int)
    ensures CountBelow(Insert(y, s), x) == CountBelow(s, x) + if y < x then 1 else 0
    ensures CountAbove(Insert(y, s), x) == CountAbove(s, x) + if y > x then 1 else 0
  {
    if s == [] || y <= s[0] {
      assert ([y] + s)[1..] == s;
    } else {
      InsertCounts(y, s[1..], x);
      assert Insert(y, s)[1..] == Insert(y, s[1..]);
    }
  }

  lemma {:induction false} SortedCounts(s: seq<uint16>, x: int)
    ensures CountBelow(Sorted(s), x) == CountBelow(s, x)
    ensures CountAbove(Sorted(s), x) == CountAbove(s, x)
  {
    if s != [] {
      SortedCounts(s[1..], x);
      InsertCounts(s[0], Sorted(s[1..]), x);
    }
  }

  lemma {:induction false} PrefixBelow(s: seq<uint16>, n: nat, x: int)
    requires n <= |s| && forall i :: 0 <= i < n ==> s[i] < x
    ensures CountBelow(s, x) >= n
  {
    if n > 0 {
      assert forall i :: 0 <= i < n - 1 ==> s[1..][i] == s[i + 1];
      PrefixBelow(s[1..], n - 1, x);
    }
  }

  lemma {:induction false} SuffixAbove(s: seq<uint16>, n: nat, x: int)
    requires n <= |s| && forall i :: n <= i < |s| ==> s[i] > x
    ensures CountAbove(s, x) >= |s| - n
  {
    if n < |s| && n > 0 {
      assert forall i :: n - 1 <= i < |s| - 1 ==> s[1..][i] == s[i + 1];
      SuffixAbove(s[1..], n - 1, x);
    } else if n < |s| {
      assert forall i :: 0 <= i < |s| - 1 ==> s[1..][i] == s[i + 1];
      SuffixAbove(s[1..], 0, x);
    }
  }

  // ---------------------------------------------------------------- the trimmed sum

  function Sum(s: seq<uint16>): nat {
    if s == [] then 0 else Sum(s[..|s| - 1]) + s[|s| - 1]
  }

  lemma {:induction false} SumBetween(s: seq<uint16>, lo: int, hi: int)
    requires forall i :: 0 <= i < |s| ==> lo <= s[i] <= hi
    ensures lo * |s| <= Sum(s) <= hi * |s|
  {
    if s != [] {
      var n := |s| - 1;
      SumBetween(s[..n], lo, hi);
      OneMore(lo, n);
      OneMore(hi, n);
    }
  }

  lemma OneMore(x: int, n: int)
    ensures x * (n + 1) == x * n + x
  {
  }

  /** The new oversampled value: the middle half of the window, summed and divided by four. */
  function Oversampled(window: seq<uint16>): nat
    requires |window| == NUM_SAMPLES
  {
    Sum(Sorted(window)[8..24]) / 4
  }

  /** low, mid and high are a window taken apart: its eight least samples, its eight greatest and
      the sixteen between them, each in any order. */
  ghost predicate IsSplit(window: seq<uint16>, low: seq<uint16>, mid: seq<uint16>, high: seq<uint16>) {
    |low| == |high| == 8 && |mid| == 16 && multiset(low + mid + high) == multiset(window) &&
    (forall x, y :: x in low && y in mid ==> x <= y) && (forall x, y :: x in mid && y in high ==> x <= y)
  }

  /** Every window can be taken apart. */
  lemma SplitExists(window: seq<uint16>) returns (low: seq<uint16>, mid: seq<uint16>, high: seq<uint16>)
    requires |window| == NUM_SAMPLES
    ensures IsSplit(window, low, mid, high)
  {
    var s := Sorted(window);
    SortedIsSortedPermutation(window);
    low, mid, high := s[..8], s[8..24], s[24..];
    assert low + mid + high == s;
  }

  /** The oversampled value is the total of the sixteen middle samples divided by four. */
  lemma OversampledIsMiddle(window: seq<uint16>, low: seq<uint16>, mid: seq<uint16>, high: seq<uint16>)
    requires |window| == NUM_SAMPLES && IsSplit(window, low, mid, high)
    ensures Sum(Sorted(window)[8..24]) == Total(mid) && Oversampled(window) == Total(mid) / 4
  {
    var a, b, c := Sorted(low), Sorted(mid), Sorted(high);
    SortedIsSortedPermutation(low);
    SortedIsSortedPermutation(mid);
    SortedIsSortedPermutation(high);
    SortedIsSortedPermutation(window);
    InOrder(a, b, low, mid);
    InOrder(b, c, mid, high);
    SortedParts(a, b, c);
    SortedIsUnique(Sorted(window), a + b + c);
    assert (a + b + c)[8..24] == b;
    SumIsTotal(b);
    TotalOfSorted(mid);
  }

  lemma InOrder(a: seq<uint16>, b: seq<uint16>, s: seq<uint16>, t: seq<uint16>)
    requires multiset(a) == multiset(s) && multiset(b) == multiset(t)
    requires forall x, y :: x in s && y in t ==> x <= y
    ensures forall i, j :: 0 <= i < |a| && 0 <= j < |b| ==> a[i] <= b[j]
  {
    forall i, j | 0 <= i < |a| && 0 <= j < |b| ensures a[i] <= b[j] {
      assert a[i] in multiset(a) && b[j] in multiset(b);
      assert a[i] in s && b[j] in t;
    }
  }

  lemma SortedParts(a: seq<uint16>, b: seq<uint16>, c: seq<uint16>)
    requires IsSorted(a) && IsSorted(b) && IsSorted(c) && b != []
    requires forall i, j :: 0 <= i < |a| && 0 <= j < |b| ==> a[i] <= b[j]
    requires forall i, j :: 0 <= i < |b| && 0 <= j < |c| ==> b[i] <= c[j]
    ensures IsSorted(a + b + c)
  {
    forall i, j | 0 <= i < |a| && 0 <= j < |c| ensures a[i] <= c[j] {
      assert a[i] <= b[0] <= c[j];
    }
  }

  /** Two sorted sequences of the same samples are equal. */
  lemma {:induction false} SortedIsUnique(a: seq<uint16>, b: seq<uint16>)
    requires IsSorted(a) && IsSorted(b) && multiset(a) == multiset(b)
    ensures a == b
  {
    if a == [] || b == [] {
      assert |multiset(a)| == |a| && |multiset(b)| == |b|;
    } else {
      SameLeast(a, b);
      WithoutFirst(a);
      WithoutFirst(b);
      hide IsSorted;
      SortedIsUnique(a[1..], b[1..]);
      assert a == [a[0]] + a[1..] && b == [b[0]] + b[1..];
    }
  }

  lemma SameLeast(a: seq<uint16>, b: seq<uint16>)
    requires IsSorted(a) && IsSorted(b) && multiset(a) == multiset(b) && a != [] && b != []
    ensures a[0] == b[0]
  {
    assert a[0] in multiset(b) && b[0] in multiset(a);
  }

  lemma WithoutFirst(s: seq<uint16>)
    requires s != [] && IsSorted(s)
    ensures IsSorted(s[1..]) && multiset(s[1..]) == multiset(s) - multiset{s[0]}
  {
    assert s == [s[0]] + s[1..];
  }

  lemma {:induction false} SumIsTotal(s: seq<uint16>)
    ensures Sum(s) == Total(s)
  {
    if s != [] {
      SumIsTotal(s[..|s| - 1]);
      TotalNext(s[..|s| - 1], s[|s| - 1]);
      assert s == s[..|s| - 1] + [s[|s| - 1]];
    }
  }

  lemma {:induction false} TotalOfInsert(x: uint16, s: seq<uint16>)
    ensures Total(Insert(x, s)) == x + Total(s)
  {
    if s == [] || x <= s[0] {
      assert ([x] + s)[1..] == s;
    } else {
      TotalOfInsert(x, s[1..]);
      assert Insert(x, s)[1..] == Insert(x, s[1..]);
    }
  }

  lemma {:induction false} TotalOfSorted(s: seq<uint16>)
    ensures Total(Sorted(s)) == Total(s)
  {
    if s != [] {
      TotalOfSorted(s[1..]);
      TotalOfInsert(s[0], Sorted(s[1..]));
    }
  }

  /** With at most eight samples of the window below lo and at most eight above hi, the
      oversampled value lies between four times lo and four times hi: up to sixteen outliers,
      eight on each side, never show. */
  lemma OutliersNeverShow(window: seq<uint16>, lo: int, hi: int)
    requires |window| == NUM_SAMPLES
    requires CountBelow(window, lo) <= 8 && CountAbove(window, hi) <= 8
    ensures 4 * lo <= Oversampled(window) <= 4 * hi
  {
    var s := Sorted(window);
    SortedIsSortedPermutation(window);
    SortedCounts(window, lo);
    SortedCounts(window, hi);
    if s[8] < lo {
      assert forall i :: 0 <= i < 9 ==> s[i] <= s[8];
      PrefixBelow(s, 9, lo);
    }
    if s[23] > hi {
      assert forall i :: 23 <= i < 32 ==> s[23] <= s[i];
      SuffixAbove(s, 23, hi);
    }
    SumBetween(s[8..24], lo, hi);
  }

  /** Nine outliers on one side do show: the bound is exact. */
  lemma NineOutliersShow(window: seq<uint16>, lo: uint16)
    requires |window| == NUM_SAMPLES && lo >= 4
    requires forall i :: 0 <= i < 9 ==> window[i] == 0
    requires forall i :: 9 <= i < 32 ==> window[i] == lo
    ensures CountBelow(window, lo) == 9 && CountAbove(window, lo) == 0 && Oversampled(window) < 4 * lo
  {
    var a, b := window[..9], window[9..];
    Constant(a, 0, lo);
    Constant(b, lo, lo);
    assert window == a + b;
    CountsConcat(a, b, lo);
    AlreadySorted(window);
    var middle := window[8..24];
    assert middle[..15][..0] == [];
    SumBetween(middle[1..], lo, lo);
    SumFront(middle);
  }

  /** And so on the other side. */
  lemma NineHighOutliersShow(window: seq<uint16>, hi: uint16)
    requires |window| == NUM_SAMPLES && hi <= 0xFFFF - 4
    requires forall i :: 0 <= i < 23 ==> window[i] == hi
    requires forall i :: 23 <= i < 32 ==> window[i] == hi + 4
    ensures CountAbove(window, hi) == 9 && CountBelow(window, hi) == 0 && Oversampled(window) > 4 * hi
  {
    var a, b := window[..23], window[23..];
    Constant(a, hi, hi);
    Constant(b, hi + 4, hi);
    assert window == a + b;
    CountsConcat(a, b, hi);
    AlreadySorted(window);
    var middle := window[8..24];
    SumBetween(middle[..15], hi, hi);
  }

  lemma {:induction false} Constant(s: seq<uint16>, c: uint16, x: int)
    requires forall i :: 0 <= i < |s| ==> s[i] == c
    ensures CountBelow(s, x) == if c < x then |s| else 0
    ensures CountAbove(s, x) == if c > x then |s| else 0
  {
    if s != [] { Constant(s[1..], c, x); }
  }

  lemma {:induction false} CountsConcat(a: seq<uint16>, b: seq<uint16>, x: int)
    ensures CountBelow(a + b, x) == CountBelow(a, x) + CountBelow(b, x)
    ensures CountAbove(a + b, x) == CountAbove(a, x) + CountAbove(b, x)
  {
    if a == [] {
      assert a + b == b;
    } else {
      assert (a + b)[1..] == a[1..] + b;
      CountsConcat(a[1..], b, x);
    }
  }

  lemma {:induction false} AlreadySorted(s: seq<uint16>)
    requires IsSorted(s)
    ensures Sorted(s) == s
  {
    if s != [] {
      AlreadySorted(s[1..]);
      assert [s[0]] + s[1..] == s;
    }
  }

  lemma {:induction false} SumFront(s: seq<uint16>)
    requires s != []
    ensures Sum(s) == s[0] + Sum(s[1..])
  {
    if |s| > 1 {
      SumFront(s[..|s| - 1]);
      assert s[..|s| - 1][1..] == s[1..][..|s| - 2];
    } else {
      assert s[..0] == [];
    }
  }

  // ---------------------------------------------------------------- the moving average

  /** roundf of a quarter of a sum of four uint16_t: exact in float, halves round up. */
  function RoundedQuarter(sum: nat): (r: nat)
    ensures -1 <= 4 * r - sum <= 2
  {
    (sum + 2) / 4
  }

  /** The last four oversampled values, newest first; a channel starts with four zeros. */
  function LastFour(history: seq<nat>): (f: seq<nat>)
    ensures |f| == 4
  {
    if history == [] then [0, 0, 0, 0]
    else [history[|history| - 1]] + LastFour(history[..|history| - 1])[..3]
  }

  function Reading(history: seq<nat>): nat {
    var f := LastFour(history);
    RoundedQuarter(f[0] + f[1] + f[2] + f[3])
  }

  /** The k-th latest value, and zero before the first. */
  function Past(history: seq<nat>, k: nat): nat
    requires k > 0
  {
    if k <= |history| then history[|history| - k] else 0
  }

  /** A reading is the average of the last four values, rounded to the nearest with halves up. */
  lemma ReadingIsAverage(history: seq<nat>)
    ensures -1 <= 4 * Reading(history) - (Past(history, 1) + Past(history, 2) + Past(history, 3) + Past(history, 4)) <= 2
  {
    LastFourAt(history, 0);
    LastFourAt(history, 1);
    LastFourAt(history, 2);
    LastFourAt(history, 3);
  }

  lemma {:induction false} LastFourAt(history: seq<nat>, k: nat)
    requires k < 4
    ensures LastFour(history)[k] == if k < |history| then history[|history| - 1 - k] else 0
  {
    if history != [] && k > 0 {
      LastFourAt(history[..|history| - 1], k - 1);
    }
  }

  /** Over any run of reads the reading stays within the bounds of the oversampled values; once
      four have been taken, within the bounds of the last four. */
  lemma ReadingIsBounded(history: seq<nat>, lo: nat, hi: nat)
    requires forall k :: |history| - 4 <= k < |history| && k >= 0 ==> lo <= history[k] <= hi
    ensures Reading(history) <= hi
    ensures |history| >= 4 ==> lo <= Reading(history)
  {
    LastFourAt(history, 0);
    LastFourAt(history, 1);
    LastFourAt(history, 2);
    LastFourAt(history, 3);
  }

  // ---------------------------------------------------------------- the filter

  class Adc {
    const sampleBuffers: seq<array<uint16>>
    const aveBuf: seq<array<uint16>>
    /** Every oversampled value of each channel so far. */
    ghost var history: seq<seq<nat>>

    /** Samples are 12 bits wide; the average buffers hold the last four values of the history. */
    ghost predicate Valid()
      reads this, sampleBuffers, aveBuf
    {
      |sampleBuffers| == |aveBuf| == |history| == NUM_CHANNELS &&
      (forall c :: 0 <= c < NUM_CHANNELS ==> sampleBuffers[c].Length == NUM_SAMPLES && aveBuf[c].Length == 4) &&
      (forall c, d :: 0 <= c < d < NUM_CHANNELS ==> sampleBuffers[c] != sampleBuffers[d] && aveBuf[c] != aveBuf[d]) &&
      (forall c, d :: 0 <= c < NUM_CHANNELS && 0 <= d < NUM_CHANNELS ==> sampleBuffers[c] != aveBuf[d]) &&
      (forall c, i :: 0 <= c < NUM_CHANNELS && 0 <= i < NUM_SAMPLES ==> sampleBuffers[c][i] <= MAX_SAMPLE) &&
      (forall c :: 0 <= c < NUM_CHANNELS ==> aveBuf[c][..] == LastFour(history[c])) &&
      (forall c, k :: 0 <= c < NUM_CHANNELS && 0 <= k < |history[c]| ==> history[c][k] <= MAX_VALUE)
    }

    constructor (samples: seq<array<uint16>>, averages: seq<array<uint16>>)
      requires |samples| == |averages| == NUM_CHANNELS
      requires forall c :: 0 <= c < NUM_CHANNELS ==> samples[c].Length == NUM_SAMPLES && averages[c].Length == 4
      requires forall c, d :: 0 <= c < d < NUM_CHANNELS ==> samples[c] != samples[d] && averages[c] != averages[d]
      requires forall c, d :: 0 <= c < NUM_CHANNELS && 0 <= d < NUM_CHANNELS ==> samples[c] != averages[d]
      requires forall c, i :: 0 <= c < NUM_CHANNELS && 0 <= i < NUM_SAMPLES ==> samples[c][i] == 0
      requires forall c, i :: 0 <= c < NUM_CHANNELS && 0 <= i < 4 ==> averages[c][i] == 0
      ensures Valid() && sampleBuffers == samples && aveBuf == averages
      ensures forall c :: 0 <= c < NUM_CHANNELS ==> history[c] == []
    {
      sampleBuffers := samples;
      aveBuf := averages;
      history := seq(NUM_CHANNELS, _ => []);
    }

    /** Shuffle down and add the 12-bit reading of a channel that exists. */
    method NewSample(chan: nat, value: nat)
      requires Valid()
      modifies sampleBuffers
      ensures Valid()
      ensures forall c :: 0 <= c < NUM_CHANNELS ==>
                sampleBuffers[c][..] == if c == chan then old(sampleBuffers[c][..])[1..] + [TwelveBits(value)]
                                        else old(sampleBuffers[c][..])
    {
      hide TwelveBits, LastFour;
      if chan < NUM_CHANNELS {
        ShiftDown(sampleBuffers[chan]);
        sampleBuffers[chan][NUM_SAMPLES - 1] := TwelveBits(value);
      }
    }

    /** The OVERSAMPLE branch of read. */
    method Read(channel: nat) returns (reading: nat)
      requires Valid() && channel < NUM_CHANNELS
      modifies this`history, aveBuf[channel]
      ensures Valid() && reading <= MAX_VALUE
      ensures history == old(history)[channel := old(history)[channel] + [Oversampled(sampleBuffers[channel][..])]]
      ensures forall low: seq<uint16>, mid: seq<uint16>, high: seq<uint16> ::
                IsSplit(sampleBuffers[channel][..], low, mid, high) ==>
                history[channel] == old(history)[channel] + [Total(mid) / 4]
      ensures reading == Reading(history[channel])
      ensures var h := history[channel];
              -1 <= 4 * reading - (Past(h, 1) + Past(h, 2) + Past(h, 3) + Past(h, 4)) <= 2
    {
      hide Oversampled, LastFour, Reading, IsSplit;
      forall low: seq<uint16>, mid: seq<uint16>, high: seq<uint16> | IsSplit(sampleBuffers[channel][..], low, mid, high)
        ensures Oversampled(sampleBuffers[channel][..]) == Total(mid) / 4
      {
        OversampledIsMiddle(sampleBuffers[channel][..], low, mid, high);
      }
      var sum := TrimmedSum(sampleBuffers[channel]);
      WindowIsBounded(sampleBuffers[channel][..]);
      PushAverage(aveBuf[channel], sum / 4);
      ghost var next := history[channel] + [Oversampled(sampleBuffers[channel][..])];
      LastFourNext(history[channel], sum / 4);
      history := history[channel := next];
      ReadingIsBounded(next, 0, MAX_VALUE);
      ReadingOf(next);
      ReadingIsAverage(next);
      var ave := aveBuf[channel];
      reading := RoundedQuarter(ave[0] + ave[1] + ave[2] + ave[3]);
    }
  }

  lemma LastFourNext(history: seq<nat>, v: nat)
    ensures LastFour(history + [v]) == [v] + LastFour(history)[..3]
  {
    assert (history + [v])[..|history|] == history;
  }

  lemma ReadingOf(history: seq<nat>)
    ensures var f := LastFour(history); Reading(history) == RoundedQuarter(f[0] + f[1] + f[2] + f[3])
  {
  }

  /** The sorted copy's middle half, summed. */
  method TrimmedSum(samples: array<uint16>) returns (sum: nat)
    requires samples.Length == NUM_SAMPLES
    ensures sum / 4 == Oversampled(samples[..])
    ensures forall low: seq<uint16>, mid: seq<uint16>, high: seq<uint16> ::
              IsSplit(samples[..], low, mid, high) ==> sum == Total(mid)
  {
    hide IsSplit;
    forall low: seq<uint16>, mid: seq<uint16>, high: seq<uint16> | IsSplit(samples[..], low, mid, high)
      ensures Sum(Sorted(samples[..])[8..24]) == Total(mid)
    {
      OversampledIsMiddle(samples[..], low, mid, high);
    }
    var medianBuffer := Sorted(samples[..]);
    sum := 0;
    assert medianBuffer[8..8] == [];
    for i := NUM_SAMPLES / 4 to NUM_SAMPLES - NUM_SAMPLES / 4
      invariant sum == Sum(medianBuffer[8..i])
    {
      assert medianBuffer[8..i + 1][..i - 8] == medianBuffer[8..i];
      sum := sum + medianBuffer[i];
    }
  }

  /** Slows down the rate of change a little bit. */
  method PushAverage(ave: array<uint16>, value: uint16)
    requires ave.Length == 4
    modifies ave
    ensures ave[..] == [value] + old(ave[..])[..3]
  {
    ave[3] := ave[2];
    ave[2] := ave[1];
    ave[1] := ave[0];
    ave[0] := value;
  }

  /** The memmove of new_sample. */
  method ShiftDown(buffer: array<uint16>)
    requires buffer.Length > 0
    modifies buffer
    ensures buffer[..buffer.Length - 1] == old(buffer[..])[1..]
    ensures buffer[buffer.Length - 1] == old(buffer[buffer.Length - 1])
  {
    for i := 0 to buffer.Length - 1
      invariant forall k :: 0 <= k < i ==> buffer[k] == old(buffer[k + 1])
      invariant forall k :: i <= k < buffer.Length ==> buffer[k] == old(buffer[k])
    {
      buffer[i] := buffer[i + 1];
    }
  }

  lemma WindowIsBounded(window: seq<uint16>)
    requires |window| == NUM_SAMPLES && forall i :: 0 <= i < NUM_SAMPLES ==> window[i] <= MAX_SAMPLE
    ensures Oversampled(window) <= MAX_VALUE
  {
    NoneAbove(window, MAX_SAMPLE);
    NoneBelow(window, 0);
    OutliersNeverShow(window, 0, MAX_SAMPLE);
  }

  lemma {:induction false} NoneAbove(s: seq<uint16>, x: int)
    requires forall i :: 0 <= i < |s| ==> s[i] <= x
    ensures CountAbove(s, x) == 0
  {
    if s != [] { NoneAbove(s[1..], x); }
  }

  lemma {:induction false} NoneBelow(s: seq<uint16>, x: int)
    requires forall i :: 0 <= i < |s| ==> s[i] >= x
    ensures CountBelow(s, x) == 0
  {
    if s != [] { NoneBelow(s[1..], x); }
  }
}
