/** How far apart two flipped bits may be for the CRC of src/libs/CRC16.h to see them: the register of
    a single bit returns to itself exactly after the multiples of 32767 steps. */
module CrcPeriod {
  import opened Crc16

  // ---------------------------------------------------------------- powers of x

  /** The register that holds 1. */
  function One(): Reg {
    Bits(1)
  }

  /** The word w holds x^n reduced by the generator. */
  ghost predicate IsPower(n: nat, w: bv16) {
    Steps(One(), n) == Bits(w)
  }

  lemma {:induction false} StepsAdd(r: Reg, m: nat, n: nat)
    ensures Steps(r, m + n) == Steps(Steps(r, m), n)
    decreases m
  {
    hide Step;
    if m > 0 {
      StepsAdd(Step(r), m - 1, n);
    }
  }

  function XorIf(r: Reg, bit: bool, b: Reg): (x: Reg) {
    Xor(r, if bit then b else Zeros(16))
  }

  /** The product of the first k bits of a, as a polynomial, and b: Horner's rule. */
  function ProductOf(a: Reg, b: Reg, k: nat): Reg
    requires k <= 16
  {
    if k == 0 then Zeros(16) else XorIf(Step(ProductOf(a, b, k - 1)), a[k - 1], b)
  }

  lemma ZeroSteps()
    ensures Step(Zeros(16)) == Zeros(16)
  {
  }

  lemma {:induction false} ZerosStay(n: nat)
    ensures Steps(Zeros(16), n) == Zeros(16)
  {
    if n > 0 {
      ZeroSteps();
      ZerosStay(n - 1);
    }
  }

  lemma {:induction false} TimesOne(a: Reg, k: nat)
    requires k <= 16
    ensures ProductOf(a, One(), k) == Zeros(16 - k) + a[..k]
  {
    hide Step, One, XorIf;
    if k > 0 {
      TimesOne(a, k - 1);
      var p := Zeros(17 - k) + a[..k - 1];
      ShiftIn(p, a[k - 1]);
      assert p[1..] + [a[k - 1]] == Zeros(16 - k) + a[..k];
    } else {
      assert Zeros(16) + a[..0] == Zeros(16);
    }
  }

  lemma ShiftIn(r: Reg, bit: bool)
    requires !r[0]
    ensures XorIf(Step(r), bit, One()) == r[1..] + [bit]
  {
    OneBits();
    hide One;
    assert Step(r) == r[1..] + [false];
  }

  lemma OneBits()
    ensures forall i :: 0 <= i < 16 ==> One()[i] == (i == 15)
  {
  }

  /** Stepping a product is stepping its factor. */
  lemma {:induction false} StepProduct(a: Reg, b: Reg, k: nat, n: nat)
    requires k <= 16
    ensures Steps(ProductOf(a, b, k), n) == ProductOf(a, Steps(b, n), k)
    decreases k
  {
    hide Step;
    ZerosStay(n);
    if k > 0 {
      StepProduct(a, b, k - 1, n);
      var p := ProductOf(a, b, k - 1);
      StepsAreLinear(Step(p), if a[k - 1] then b else Zeros(16), n);
      StepsAdd(p, 1, n);
      StepsAdd(p, n, 1);
      OneStep(p);
      OneStep(Steps(p, n));
    }
  }

  lemma OneStep(r: Reg)
    ensures Steps(r, 1) == Step(r)
  {
    hide Step;
    assert Steps(Step(r), 0) == Step(r);
  }

  /** Steps on any register are a product with a power of x. */
  lemma StepsAreProduct(a: Reg, n: nat)
    ensures Steps(a, n) == ProductOf(a, Steps(One(), n), 16)
  {
    hide Step, Steps, One;
    TimesOne(a, 16);
    assert Zeros(0) + a[..16] == a;
    StepProduct(a, One(), 16, n);
  }

  // ---------------------------------------------------------------- products of words

  function StepWord(s: bv16): bv16 {
    if s & 0x8000 != 0 then (s << 1) ^ 0x1021 else s << 1
  }

  /** One round of the product on words. */
  function Round(product: bv16, bit: bool, b: bv16): bv16 {
    if bit then StepWord(product) ^ b else StepWord(product)
  }

  /** The same product on words. */
  function Times(a: bv16, b: bv16, k: nat): bv16
    requires k <= 16
  {
    if k == 0 then 0 else Round(Times(a, b, k - 1), BitAt(a, k - 1), b)
  }

  /** All sixteen rounds. */
  function TimesWord(a: bv16, b: bv16): bv16 {
    var p := Round(Round(Round(Round(0, a & 0x8000 != 0, b), a & 0x4000 != 0, b), a & 0x2000 != 0, b), a & 0x1000 != 0, b);
    var q := Round(Round(Round(Round(p, a & 0x0800 != 0, b), a & 0x0400 != 0, b), a & 0x0200 != 0, b), a & 0x0100 != 0, b);
    var r := Round(Round(Round(Round(q, a & 0x0080 != 0, b), a & 0x0040 != 0, b), a & 0x0020 != 0, b), a & 0x0010 != 0, b);
    Round(Round(Round(Round(r, a & 0x0008 != 0, b), a & 0x0004 != 0, b), a & 0x0002 != 0, b), a & 0x0001 != 0, b)
  }

  lemma AllRounds(a: bv16, b: bv16)
    ensures Times(a, b, 16) == TimesWord(a, b)
  {
    hide Round;
    TimesNext(a, b, 0); TimesNext(a, b, 1); TimesNext(a, b, 2); TimesNext(a, b, 3);
    TimesNext(a, b, 4); TimesNext(a, b, 5); TimesNext(a, b, 6); TimesNext(a, b, 7);
    TimesNext(a, b, 8); TimesNext(a, b, 9); TimesNext(a, b, 10); TimesNext(a, b, 11);
    TimesNext(a, b, 12); TimesNext(a, b, 13); TimesNext(a, b, 14); TimesNext(a, b, 15);
    hide Times;
  }

  lemma TimesNext(a: bv16, b: bv16, k: nat)
    requires k < 16
    ensures Times(a, b, 0) == 0 && Times(a, b, k + 1) == Round(Times(a, b, k), a & Mask(k) != 0, b)
  {
    hide Round, Mask;
  }

  lemma StepWordBits(s: bv16)
    ensures Bits(StepWord(s)) == Step(Bits(s))
  {
    hide Bits, Step;
    WordStep(s);
  }

  lemma RoundIsXor(product: bv16, bit: bool, b: bv16)
    ensures Bits(Round(product, bit, b)) == XorIf(Step(Bits(product)), bit, Bits(b))
  {
    StepWordBits(product);
    var s := StepWord(product);
    XorBits(s, b);
    XorNothing(Bits(s));
    hide Step, Xor, Bits, BitAt, StepWord;
  }

  lemma XorNothing(r: Reg)
    ensures Xor(r, Zeros(16)) == r
  {
  }

  lemma {:induction false} TimesIsProduct(a: bv16, b: bv16, k: nat)
    requires k <= 16
    ensures Bits(Times(a, b, k)) == ProductOf(Bits(a), Bits(b), k)
  {
    hide Round, BitAt, Step, XorIf, Bits;
    if k > 0 {
      TimesIsProduct(a, b, k - 1);
      BitOf(a, k - 1);
      RoundIsXor(Times(a, b, k - 1), BitAt(a, k - 1), b);
    } else {
      ZeroBits();
    }
  }

  lemma BitOf(a: bv16, i: nat)
    requires i < 16
    ensures Bits(a)[i] == BitAt(a, i)
  {
    hide BitAt;
  }

  lemma Product(m: nat, n: nat, a: bv16, b: bv16, c: bv16)
    requires IsPower(m, a) && IsPower(n, b) && TimesWord(a, b) == c
    ensures IsPower(m + n, c)
  {
    hide Steps, Step, Times, TimesWord, Bits, One, ProductOf;
    StepsAdd(One(), m, n);
    StepsAreProduct(Bits(a), n);
    TimesIsProduct(a, b, 16);
    AllRounds(a, b);
  }

  lemma FirstPower()
    ensures IsPower(1, 0x0002)
  {
    hide Bits;
    WordStep(1);
    OneStep(One());
  }

  /** x to the powers of two, by repeated squaring: x^32768 is x again. */
  lemma Squares()
    ensures IsPower(1, 0x0002)
    ensures IsPower(2, 0x0004)
    ensures IsPower(4, 0x0010)
    ensures IsPower(8, 0x0100)
    ensures IsPower(16, 0x1021)
    ensures IsPower(32, 0x3730)
    ensures IsPower(64, 0xB861)
    ensures IsPower(128, 0xAEFC)
    ensures IsPower(256, 0x8E29)
    ensures IsPower(512, 0x13FC)
    ensures IsPower(1024, 0x36C4)
    ensures IsPower(2048, 0xFD50)
    ensures IsPower(4096, 0xAA9E)
    ensures IsPower(8192, 0x881C)
    ensures IsPower(16384, 0x4458)
    ensures IsPower(32768, 0x0002)
  {
    hide IsPower;
    FirstPower();
    Product(1, 1, 0x0002, 0x0002, 0x0004);
    Product(2, 2, 0x0004, 0x0004, 0x0010);
    Product(4, 4, 0x0010, 0x0010, 0x0100);
    Product(8, 8, 0x0100, 0x0100, 0x1021);
    Product(16, 16, 0x1021, 0x1021, 0x3730);
    Product(32, 32, 0x3730, 0x3730, 0xB861);
    Product(64, 64, 0xB861, 0xB861, 0xAEFC);
    Product(128, 128, 0xAEFC, 0xAEFC, 0x8E29);
    Product(256, 256, 0x8E29, 0x8E29, 0x13FC);
    Product(512, 512, 0x13FC, 0x13FC, 0x36C4);
    Product(1024, 1024, 0x36C4, 0x36C4, 0xFD50);
    Product(2048, 2048, 0xFD50, 0xFD50, 0xAA9E);
    Product(4096, 4096, 0xAA9E, 0xAA9E, 0x881C);
    Product(8192, 8192, 0x881C, 0x881C, 0x4458);
    Product(16384, 16384, 0x4458, 0x4458, 0x0002);
  }

  lemma ShortPowers()
    ensures IsPower(217, 0x48E3) && IsPower(1057, 0xF2AF) && IsPower(4681, 0x2C42)
  {
    hide IsPower;
    Squares();
    Product(128, 64, 0xAEFC, 0xB861, 0x650B);
    Product(192, 16, 0x650B, 0x1021, 0x45B4);
    Product(208, 8, 0x45B4, 0x0100, 0xAC61);
    Product(216, 1, 0xAC61, 0x0002, 0x48E3);
    Product(1024, 32, 0x36C4, 0x3730, 0xF147);
    Product(1056, 1, 0xF147, 0x0002, 0xF2AF);
    Product(4096, 512, 0xAA9E, 0x13FC, 0x54A0);
    Product(4608, 64, 0x54A0, 0xB861, 0x0106);
    Product(4672, 8, 0x0106, 0x0100, 0x1621);
    Product(4680, 1, 0x1621, 0x0002, 0x2C42);
  }

  // ---------------------------------------------------------------- the period

  /** n steps bring the register of one bit back to itself. */
  ghost predicate IsPeriod(n: nat) {
    Steps(One(), n) == One()
  }

  /** 32767 is a period, and the products of two of its three prime factors are not. */
  lemma PeriodCandidates()
    ensures IsPeriod(32767) && !IsPeriod(217) && !IsPeriod(1057) && !IsPeriod(4681)
  {
    Squares();
    ShortPowers();
    NotOne(0x48E3, 1);
    NotOne(0xF2AF, 0);
    NotOne(0x2C42, 2);
    hide Step, Steps, Bits;
    StepsAdd(One(), 32767, 1);
    StepsAdd(One(), 1, 0);
    OneStep(Steps(One(), 32767));
    OneStep(One());
    StepIsInjective(Steps(One(), 32767), One());
  }

  lemma NotOne(w: bv16, i: nat)
    requires i < 15 && BitAt(w, i)
    ensures Bits(w) != One()
  {
    OneBits();
    hide One, BitAt;
    assert Bits(w)[i];
  }

  lemma {:induction false} PeriodMultiple(m: nat, q: nat)
    requires IsPeriod(m)
    ensures IsPeriod(q * m)
    decreases q
  {
    hide Step;
    if q > 0 {
      PeriodMultiple(m, q - 1);
      assert q * m == m + (q - 1) * m;
      StepsAdd(One(), m, (q - 1) * m);
    }
  }

  lemma PeriodRemainder(n: nat, m: nat)
    requires m > 0 && IsPeriod(m)
    ensures IsPeriod(n) <==> IsPeriod(n % m)
  {
    hide Step;
    PeriodMultiple(m, n / m);
    assert n == (n / m) * m + n % m;
    StepsAdd(One(), (n / m) * m, n % m);
  }

  lemma LeastPeriod(n: nat) returns (g: nat)
    requires n > 0 && IsPeriod(n)
    ensures 0 < g <= n && IsPeriod(g) && forall k :: 0 < k < g ==> !IsPeriod(k)
  {
    if k :| 0 < k < n && IsPeriod(k) {
      g := LeastPeriod(k);
    } else {
      g := n;
    }
  }

  lemma SmallFactor(d: nat, e: nat)
    requires d <= 181 && d * e == 32767
    ensures d in {1, 7, 31, 151}
  {
  }

  lemma BothLarge(g: nat, h: nat)
    requires g > 181 && h > 181
    ensures g * h > 32767
  {
    assert g * h >= 182 * h;
  }

  /** 32767 is 7 * 31 * 151: a proper divisor of it divides the product of two of these. */
  lemma ProperDivisors(g: nat)
    requires 0 < g < 32767 && 32767 % g == 0
    ensures 217 % g == 0 || 1057 % g == 0 || 4681 % g == 0
  {
    var h := 32767 / g;
    assert 32767 == g * h;
    if g <= 181 {
      SmallFactor(g, h);
    } else {
      if h > 181 {
        BothLarge(g, h);
        assert false;
      }
      SmallFactor(h, g);
    }
  }

  /** The register of one bit comes back exactly after the multiples of 32767. */
  lemma PeriodIs32767(n: nat)
    ensures IsPeriod(n) <==> n % 32767 == 0
  {
    hide IsPeriod;
    PeriodCandidates();
    PeriodRemainder(n, 32767);
    PeriodMultiple(32767, 0);
    assert IsPeriod(0);
    if n % 32767 != 0 && IsPeriod(n) {
      var g := LeastPeriod(n % 32767);
      PeriodRemainder(32767, g);
      assert 32767 % g == 0;
      ProperDivisors(g);
      PeriodRemainder(217, g);
      PeriodRemainder(1057, g);
      PeriodRemainder(4681, g);
      assert false;
    }
  }

  // ---------------------------------------------------------------- two flipped bits

  /** The register with only the bit that is shifted out next. */
  function Top(): (t: Reg)
    ensures forall i :: 0 <= i < 16 ==> t[i] == (i == 0)
  {
    [true] + Zeros(15)
  }

  lemma TopPeriod(n: nat)
    ensures Steps(Top(), n) == Top() <==> n % 32767 == 0
  {
    PeriodIs32767(n);
    OneBits();
    hide One, Step;
    var one := One();
    assert one[..15] == Zeros(15) && one[15..] == [true];
    ClearBitsShift(one, 15);
    StepsAdd(one, 15, n);
    StepsAdd(one, n, 15);
    assert Steps(Top(), n) == Steps(Steps(one, n), 15);
    if Steps(Top(), n) == Top() {
      StepsAreInjective(Steps(one, n), one, 15);
    }
  }

  /** Equal bits fed to two registers only step their difference. */
  lemma {:induction false} DifferenceSteps(a: Reg, b: Reg, bits: seq<bool>)
    ensures Xor(FeedBits(a, bits), FeedBits(b, bits)) == Steps(Xor(a, b), |bits|)
    decreases |bits|
  {
    if bits != [] {
      hide Step;
      var c := bits[0];
      var a', b' := a[0 := a[0] != c], b[0 := b[0] != c];
      assert Xor(a', b') == Xor(a, b);
      StepIsLinear(a', b');
      DifferenceSteps(FeedBit(a, c), FeedBit(b, c), bits[1..]);
    }
  }

  lemma FlippedBit(r: Reg, x: bool)
    ensures Xor(FeedBit(r, x), FeedBit(r, !x)) == Step(Top())
  {
    hide Step;
    var a, b := r[0 := r[0] != x], r[0 := r[0] != !x];
    assert Xor(a, b) == Top();
    StepIsLinear(a, b);
  }

  lemma FlippedAgain(a: Reg, b: Reg, y: bool)
    ensures FeedBit(a, y) == FeedBit(b, !y) <==> Xor(a, b) == Top()
  {
    hide Step;
    var a', b' := a[0 := a[0] != y], b[0 := b[0] != !y];
    if FeedBit(a, y) == FeedBit(b, !y) {
      StepIsInjective(a', b');
      forall i | 0 <= i < 16 ensures Xor(a, b)[i] == Top()[i] {
        assert a'[i] == b'[i];
      }
    }
    if Xor(a, b) == Top() {
      assert forall i :: 0 <= i < 16 ==> Xor(a, b)[i] == Top()[i];
      assert a' == b';
    }
  }

  /** Two flipped bits, anywhere in any message, go unseen exactly when their distance is a multiple
      of 32767 bits: in every message of up to 4095 bytes they are seen. */
  lemma TwoBitErrorsDetected(r: Reg, before: seq<bool>, x: bool, mid: seq<bool>, y: bool, after: seq<bool>)
    ensures FeedBits(r, before + [x] + mid + [y] + after) == FeedBits(r, before + [!x] + mid + [!y] + after)
       <==> (|mid| + 1) % 32767 == 0
  {
    hide Step, FeedBit, Steps;
    var s := FeedBits(r, before);
    var a, b := FeedBits(FeedBit(s, x), mid), FeedBits(FeedBit(s, !x), mid);
    FeedParts(r, before, x, mid, y, after);
    FeedParts(r, before, !x, mid, !y, after);
    DifferenceSteps(FeedBit(s, x), FeedBit(s, !x), mid);
    FlippedBit(s, x);
    StepsAdd(Top(), 1, |mid|);
    OneStep(Top());
    TopPeriod(|mid| + 1);
    FlippedAgain(a, b, y);
    if FeedBits(FeedBit(a, y), after) == FeedBits(FeedBit(b, !y), after) {
      FeedIsInjective(FeedBit(a, y), FeedBit(b, !y), after);
    }
  }

  lemma FeedParts(r: Reg, before: seq<bool>, x: bool, mid: seq<bool>, y: bool, after: seq<bool>)
    ensures FeedBits(r, before + [x] + mid + [y] + after)
         == FeedBits(FeedBit(FeedBits(FeedBit(FeedBits(r, before), x), mid), y), after)
  {
    hide FeedBit;
    FeedConcat(r, before + [x] + mid + [y], after);
    FeedConcat(r, before + [x] + mid, [y]);
    FeedConcat(r, before + [x], mid);
    FeedConcat(r, before, [x]);
    FeedOne(FeedBits(r, before), x);
    FeedOne(FeedBits(r, before + [x] + mid), y);
  }

  lemma FeedOne(r: Reg, x: bool)
    ensures FeedBits(r, [x]) == FeedBit(r, x)
  {
    hide FeedBit;
    assert [x][1..] == [];
  }
}
