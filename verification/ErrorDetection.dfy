/** The error-detection claims in the header of `crc8`: single, double, triple and parity errors, and bursts. */
module ErrorDetection {
  import opened Polynomials
  import opened Crc

  /** The positions at which two blocks differ, as the exponents of their bits. */
  function Differing(a: seq<bv8>, b: seq<bv8>): Poly { Add(DataPoly(a), DataPoly(b)) }

  /** How many of the first `k` bits are set. */
  function Ones(k: nat, bits: Poly): nat {
    if k == 0 then 0 else Ones(k - 1, bits) + (if k - 1 in bits then 1 else 0)
  }

  /** The number of bits set in a byte. */
  function PopCount(c: bv8): nat { Ones(8, Bits(c)) }

  /** The number of bits set in a block. */
  function BitsSet(data: seq<bv8>): nat {
    if data == [] then 0 else BitsSet(data[..|data| - 1]) + PopCount(data[|data| - 1])
  }

  /** The number of bits in which two blocks of one length differ. */
  function BitErrors(a: seq<bv8>, b: seq<bv8>): nat
    requires |a| == |b|
  {
    BitsSet(Xor(a, b))
  }

  lemma {:induction false} OnesIsSize(k: nat, bits: Poly)
    requires DegreeBelow(bits, k)
    ensures |bits| == Ones(k, bits)
  {
    if k == 0 {
      assert bits == {};
    } else {
      var fewer := bits - {k - 1};
      OnesIsSize(k - 1, fewer);
      OnesBelow(k - 1, bits, fewer);
      if k - 1 in bits {
        assert |fewer| == |bits| - 1;
      } else {
        assert fewer == bits;
      }
    }
  }

  lemma {:induction false} OnesBelow(k: nat, p: Poly, q: Poly)
    requires forall e :: e < k ==> (e in p <==> e in q)
    ensures Ones(k, p) == Ones(k, q)
  {
    if k == 0 {
    } else {
      OnesBelow(k - 1, p, q);
    }
  }

  lemma ByteSize(c: bv8)
    ensures |Bits(c)| == PopCount(c)
  {
    OnesIsSize(8, Bits(c));
  }

  /** Adding a polynomial of degree below 8 to a multiple of x^8 adds the numbers of terms. */
  lemma ApartSize(p: Poly, r: Poly)
    requires DegreeBelow(r, 8)
    ensures |Add(Shift(p, 8), r)| == |p| + |r|
  {
    ShiftSize(p, 8);
    forall e: nat ensures !(e in Shift(p, 8) && e in r) {
      InShift(p, 8, e);
    }
    assert Add(Shift(p, 8), r) == Shift(p, 8) + r && Shift(p, 8) !! r;
  }

  lemma {:induction false} DataPolySize(data: seq<bv8>)
    ensures |DataPoly(data)| == BitsSet(data)
  {
    if data == [] {
    } else {
      var front, last := data[..|data| - 1], data[|data| - 1];
      DataPolySize(front);
      ApartSize(DataPoly(front), Bits(last));
      ByteSize(last);
    }
  }

  /** The blocks differ at as many positions as they differ in bits. */
  lemma DifferingSize(a: seq<bv8>, b: seq<bv8>)
    requires |a| == |b|
    ensures |Differing(a, b)| == BitErrors(a, b)
  {
    DataPolyXor(a, b);
    DataPolySize(Xor(a, b));
  }

  // ---------- Undetected means divisible ----------

  /** Two blocks of one length have the same CRC from the same start exactly when the polynomial of their
      difference is a multiple of the generator. */
  lemma UndetectedExactlyWhenDivisible(a: seq<bv8>, b: seq<bv8>, init: bv8)
    requires |a| == |b|
    ensures Crc8(a, init) == Crc8(b, init) <==> Divides(Differing(a, b))
  {
    var diff, ca, cb := Differing(a, b), Crc8(a, init), Crc8(b, init);
    CrcIsRemainder(a, init);
    CrcIsRemainder(b, init);
    RemainderAdds(Dividend(a, init), Bits(ca), Dividend(b, init), Bits(cb));
    DividendsDiffer(a, b, init);
    assert IsRemainder(Shift(diff, 8), Add(Bits(ca), Bits(cb)));
    DividesShift(diff, 8);
    DividesMeansZeroRemainder(Shift(diff, 8));
    if Divides(diff) {
      RemainderUnique(Shift(diff, 8), Add(Bits(ca), Bits(cb)), {});
      AddCancels(Bits(ca), Bits(cb));
      BitsInjective(ca, cb);
    }
    if ca == cb {
      AddSelf(Bits(ca));
    }
  }

  lemma DividendsDiffer(a: seq<bv8>, b: seq<bv8>, init: bv8)
    requires |a| == |b|
    ensures Add(Dividend(a, init), Dividend(b, init)) == Shift(Differing(a, b), 8)
  {
  }

  /** Blocks that differ in an odd number of bits are always told apart, whatever their length. */
  lemma OddErrorsDetected(a: seq<bv8>, b: seq<bv8>, init: bv8)
    requires |a| == |b| && BitErrors(a, b) % 2 == 1
    ensures Crc8(a, init) != Crc8(b, init)
  {
    DifferingSize(a, b);
    UndetectedExactlyWhenDivisible(a, b, init);
    if Divides(Differing(a, b)) {
      MultiplesAreEven(Differing(a, b));
      assert false;
    }
  }

  /** All these bits lie within `len` consecutive ones. */
  ghost predicate InBurst(p: Poly, lo: nat, len: nat) { forall e :: e in p ==> lo <= e < lo + len }

  /** Blocks whose differences all lie within 8 consecutive bits are always told apart, whatever their length. */
  lemma BurstsDetected(a: seq<bv8>, b: seq<bv8>, init: bv8, lo: nat)
    requires |a| == |b| && a != b && InBurst(Differing(a, b), lo, 8)
    ensures Crc8(a, init) != Crc8(b, init)
  {
    SameBlocksOnly(a, b);
    UndetectedExactlyWhenDivisible(a, b, init);
    ShortBurstIsNoMultiple(Differing(a, b), lo);
  }

  lemma SameBlocksOnly(a: seq<bv8>, b: seq<bv8>)
    requires |a| == |b|
    ensures Differing(a, b) == {} <==> a == b
  {
    AddCancels(DataPoly(a), DataPoly(b));
    if DataPoly(a) == DataPoly(b) {
      forall i: nat | i < |a| ensures a[i] == b[i] {
        SamePolySameByte(a, b, i);
      }
    }
  }

  lemma SamePolySameByte(a: seq<bv8>, b: seq<bv8>, i: nat)
    requires |a| == |b| && i < |a| && DataPoly(a) == DataPoly(b)
    ensures a[i] == b[i]
  {
    forall j: nat ensures j in Bits(a[i]) <==> j in Bits(b[i]) {
      if j < 8 {
        var e := 8 * (|a| - 1 - i) + j;
        assert e / 8 == |a| - 1 - i && e % 8 == j;
        InDataPoly(a, e);
        InDataPoly(b, e);
      }
    }
    BitsInjective(a[i], b[i]);
  }

  // ---------- The order of x is 127 ----------

  lemma {:induction false} StepsSum(j: nat, k: nat, c: bv8)
    ensures Steps(j + k, c) == Steps(j, Steps(k, c))
  {
    if j == 0 {
    } else {
      StepsSum(j - 1, k, c);
    }
  }

  /** x^k leaves the remainder 1 on division by the generator. */
  predicate Period(k: nat) { Steps(k, 1) == 1 }

  lemma EightMore(k: nat, c: bv8, d: bv8)
    requires Steps(k, 1) == c && Eight(c) == d
    ensures Steps(k + 8, 1) == d
  {
    StepsSum(8, k, 1);
    StepsEight(c);
  }

  lemma PowersOfX()
    ensures Steps(120, 1) == 0x68
  {
    PowersByEight();
    EightMore(0, 0x01, 0x31);
    EightMore(8, 0x31, 0xF4);
    EightMore(16, 0xF4, 0x46);
    EightMore(24, 0x46, 0x9B);
    EightMore(32, 0x9B, 0xD3);
    EightMore(40, 0xD3, 0x57);
    EightMore(48, 0x57, 0xE9);
    EightMore(56, 0xE9, 0x49);
    EightMore(64, 0x49, 0xB5);
    EightMore(72, 0xB5, 0x4A);
    EightMore(80, 0x4A, 0xE6);
    EightMore(88, 0xE6, 0x67);
    EightMore(96, 0x67, 0x2C);
    EightMore(104, 0x2C, 0xFB);
    EightMore(112, 0xFB, 0x68);
  }

  lemma PowersByEight()
    ensures Eight(0x01) == 0x31 && Eight(0x31) == 0xF4 && Eight(0xF4) == 0x46 && Eight(0x46) == 0x9B
    ensures Eight(0x9B) == 0xD3 && Eight(0xD3) == 0x57 && Eight(0x57) == 0xE9 && Eight(0xE9) == 0x49
    ensures Eight(0x49) == 0xB5 && Eight(0xB5) == 0x4A && Eight(0x4A) == 0xE6 && Eight(0xE6) == 0x67
    ensures Eight(0x67) == 0x2C && Eight(0x2C) == 0xFB && Eight(0xFB) == 0x68
  {
  }

  lemma Period127()
    ensures Period(127)
  {
    PowersOfX();
    StepsSum(7, 120, 1);
    LastSteps();
  }

  lemma LastSteps()
    ensures Steps(7, 0x68) == 1
  {
  }

  lemma {:induction false} StepsInjective(k: nat, c: bv8, d: bv8)
    requires Steps(k, c) == Steps(k, d)
    ensures c == d
  {
    StepsBackInverts(k, c);
    StepsBackInverts(k, d);
  }

  /** The difference of two periods is a period. */
  lemma PeriodDifference(a: nat, b: nat)
    requires b <= a && Period(a) && Period(b)
    ensures Period(a - b)
  {
    StepsSum(b, a - b, 1);
    StepsInjective(b, Steps(a - b, 1), 1);
  }

  /** So the greatest common divisor of two periods is a period. */
  lemma {:induction false} PeriodGcd(a: nat, b: nat) returns (g: nat, i: nat, j: nat)
    requires 0 < a && 0 < b && Period(a) && Period(b)
    ensures 0 < g && Period(g) && a == i * g && b == j * g
    decreases a + b
  {
    if a == b {
      g, i, j := a, 1, 1;
    } else if a > b {
      PeriodDifference(a, b);
      g, i, j := PeriodGcd(a - b, b);
      assert (i + j) * g == i * g + j * g;
      i := i + j;
    } else {
      PeriodDifference(b, a);
      g, i, j := PeriodGcd(a, b - a);
      assert (i + j) * g == i * g + j * g;
      j := i + j;
    }
  }

  lemma Prime127(i: nat, g: nat)
    requires i * g == 127
    ensures g == 1 || g == 127
  {
  }

  lemma {:induction false} MultiplesArePeriods(k: nat)
    ensures Period(127 * k)
  {
    if k == 0 {
    } else {
      MultiplesArePeriods(k - 1);
      Period127();
      StepsSum(127, 127 * (k - 1), 1);
    }
  }

  /** x has order exactly 127 modulo the generator. */
  lemma PeriodExactly(d: nat)
    ensures Period(d) <==> d % 127 == 0
  {
    if d % 127 == 0 {
      MultiplesArePeriods(d / 127);
    }
    if Period(d) && d > 0 {
      Period127();
      assert Steps(1, 1) == BitStep(Steps(0, 1)) == 2;
      var g, i, j := PeriodGcd(127, d);
      Prime127(i, g);
      assert g == 127 && d == 127 * j;
    }
  }

  // ---------- Two-bit errors ----------

  lemma ShiftOfOne(d: nat)
    ensures Shift({0}, d) == {d}
  {
  }

  /** The remainder of x^d. */
  lemma PowerRemainder(d: nat)
    ensures IsRemainder({d}, Bits(Steps(d, 1)))
  {
    BitsOfOne();
    SmallIsItsOwnRemainder({0});
    StepsShift(d, 1, {0});
    ShiftOfOne(d);
  }

  lemma BitsOfOne()
    ensures Bits(1) == {0}
  {
  }

  /** The generator divides 1 + x^d exactly when d is a period. */
  lemma OnePlusPowerDivisible(d: nat)
    requires d > 0
    ensures Divides({0, d}) <==> Period(d)
  {
    var c := Steps(d, 1);
    PowerRemainder(d);
    SmallIsItsOwnRemainder({0});
    RemainderAdds({d}, Bits(c), {0}, {0});
    assert Add({d}, {0}) == {0, d};
    DividesMeansZeroRemainder({0, d});
    AddCancels(Bits(c), {0});
    BitsOfOne();
    if Divides({0, d}) {
      RemainderUnique({0, d}, Add(Bits(c), {0}), {});
      BitsInjective(c, 1);
    }
  }

  /** The generator divides x^i + x^(i+d) exactly when 127 divides d. */
  lemma TwoTermsDivisible(i: nat, d: nat)
    requires d > 0
    ensures Divides({i, i + d}) <==> d % 127 == 0
  {
    forall e: nat ensures e in Shift({0, d}, i) <==> e in {i, i + d} {
      InShift({0, d}, i, e);
    }
    assert Shift({0, d}, i) == {i, i + d};
    DividesShift({0, d}, i);
    OnePlusPowerDivisible(d);
    PeriodExactly(d);
  }

  /** Two blocks that differ in exactly two bits, d places apart, have the same CRC exactly when 127 divides d. */
  lemma TwoBitErrorsExactly(a: seq<bv8>, b: seq<bv8>, init: bv8, i: nat, d: nat)
    requires |a| == |b| && d > 0 && Differing(a, b) == {i, i + d}
    ensures Crc8(a, init) == Crc8(b, init) <==> d % 127 == 0
  {
    UndetectedExactlyWhenDivisible(a, b, init);
    TwoTermsDivisible(i, d);
  }

  lemma DifferencesInRange(a: seq<bv8>, b: seq<bv8>)
    requires |a| == |b|
    ensures forall e :: e in Differing(a, b) ==> e < 8 * |a|
  {
    forall e: nat | e in Differing(a, b) ensures e < 8 * |a| {
      InAdd(DataPoly(a), DataPoly(b), e);
      InDataPoly(a, e);
      InDataPoly(b, e);
    }
  }

  /** A set of two numbers below `n` is some i and i + d with 0 < d < n. */
  lemma TwoElements(s: set<nat>, n: nat) returns (i: nat, d: nat)
    requires |s| == 2 && forall e :: e in s ==> e < n
    ensures 0 < d < n && s == {i, i + d}
  {
    var x: nat :| x in s;
    var rest := s - {x};
    assert |rest| == 1;
    var y: nat :| y in rest;
    assert |rest - {y}| == 0;
    assert s == {x, y};
    i, d := if x < y then x else y, if x < y then y - x else x - y;
  }

  lemma CloseTwoBitErrorsDetected(a: seq<bv8>, b: seq<bv8>, init: bv8, i: nat, d: nat)
    requires |a| == |b| && 0 < d < 127 && Differing(a, b) == {i, i + d}
    ensures Crc8(a, init) != Crc8(b, init)
  {
    SmallIsNoMultiple(d);
    TwoBitErrorsExactly(a, b, init, i, d);
  }

  lemma SmallIsNoMultiple(d: nat)
    requires 0 < d < 127
    ensures d % 127 != 0
  {
  }

  lemma ShortTwoBitErrorsDetected(a: seq<bv8>, b: seq<bv8>, init: bv8)
    requires |a| == |b| <= 15 && BitErrors(a, b) == 2
    ensures Crc8(a, init) != Crc8(b, init)
  {
    DifferingSize(a, b);
    DifferencesInRange(a, b);
    var i, d := TwoElements(Differing(a, b), 8 * |a|);
    CloseTwoBitErrorsDetected(a, b, init, i, d);
  }

  /** The header's claim: on blocks of at most 15 bytes, every error in one, two or three bits is detected. */
  lemma HeaderClaim(a: seq<bv8>, b: seq<bv8>, init: bv8)
    requires |a| == |b| <= 15 && 1 <= BitErrors(a, b) <= 3
    ensures Crc8(a, init) != Crc8(b, init)
  {
    if BitErrors(a, b) == 2 {
      ShortTwoBitErrorsDetected(a, b, init);
    } else {
      OddErrorsDetected(a, b, init);
    }
  }

  // ---------- Every pattern of errors can happen ----------

  /** The byte with these bits, the least significant first. */
  function MakeByte(b0: bool, b1: bool, b2: bool, b3: bool, b4: bool, b5: bool, b6: bool, b7: bool): bv8 {
    (if b0 then 0x01 else 0x00) | (if b1 then 0x02 else 0x00) | (if b2 then 0x04 else 0x00)
    | (if b3 then 0x08 else 0x00) | (if b4 then 0x10 else 0x00) | (if b5 then 0x20 else 0x00)
    | (if b6 then 0x40 else 0x00) | (if b7 then 0x80 else 0x00)
  }

  lemma MakeByteMasks(b0: bool, b1: bool, b2: bool, b3: bool, b4: bool, b5: bool, b6: bool, b7: bool)
    ensures var c := MakeByte(b0, b1, b2, b3, b4, b5, b6, b7);
            && (c & 0x01 != 0 <==> b0) && (c & 0x02 != 0 <==> b1) && (c & 0x04 != 0 <==> b2) && (c & 0x08 != 0 <==> b3)
            && (c & 0x10 != 0 <==> b4) && (c & 0x20 != 0 <==> b5) && (c & 0x40 != 0 <==> b6) && (c & 0x80 != 0 <==> b7)
  {
  }

  /** The eight coefficients of `p` from x^k on. */
  function ByteOf(p: Poly, k: nat): bv8 {
    MakeByte(k in p, k + 1 in p, k + 2 in p, k + 3 in p, k + 4 in p, k + 5 in p, k + 6 in p, k + 7 in p)
  }

  lemma BitsOfByteOf(p: Poly, k: nat, j: nat)
    requires j < 8
    ensures j in Bits(ByteOf(p, k)) <==> k + j in p
  {
    MakeByteMasks(k in p, k + 1 in p, k + 2 in p, k + 3 in p, k + 4 in p, k + 5 in p, k + 6 in p, k + 7 in p);
  }

  /** The block of `n` bytes whose polynomial is `p`. */
  function Block(n: nat, p: Poly): seq<bv8> {
    seq(n, i requires 0 <= i < n => ByteOf(p, 8 * (n - 1 - i)))
  }

  lemma BlockHasPoly(n: nat, p: Poly)
    requires DegreeBelow(p, 8 * n)
    ensures DataPoly(Block(n, p)) == p
  {
    forall e: nat ensures e in DataPoly(Block(n, p)) <==> e in p {
      InDataPoly(Block(n, p), e);
      if e / 8 < n {
        BitsOfByteOf(p, 8 * (e / 8), e % 8);
      }
    }
  }

  /** Whatever set of bits is to be received wrong, there is a block with just these errors. */
  lemma WithErrors(a: seq<bv8>, p: Poly) returns (b: seq<bv8>)
    requires DegreeBelow(p, 8 * |a|)
    ensures |b| == |a| && Differing(a, b) == p && BitErrors(a, b) == |p|
  {
    b := Xor(a, Block(|a|, p));
    BlockHasPoly(|a|, p);
    DataPolyXor(a, Block(|a|, p));
    AddAssociates(DataPoly(a), DataPoly(a), p);
    AddSelf(DataPoly(a));
    AddSelf(p);
    DifferingSize(a, b);
  }

  /** So every multiple of the generator that fits into a block is an error that goes undetected. */
  lemma MissedErrors(a: seq<bv8>, p: Poly, init: bv8) returns (b: seq<bv8>)
    requires DegreeBelow(p, 8 * |a|) && Divides(p)
    ensures |b| == |a| && Differing(a, b) == p && BitErrors(a, b) == |p|
    ensures Crc8(a, init) == Crc8(b, init)
  {
    b := WithErrors(a, p);
    UndetectedExactlyWhenDivisible(a, b, init);
  }

  // ---------- How long a block may be ----------

  /** Every block of 16 bytes or more has a two-bit error that goes undetected. */
  lemma LongBlocksMissAnError(a: seq<bv8>, init: bv8) returns (b: seq<bv8>)
    requires |a| >= 16
    ensures |a| == |b| && Differing(a, b) == {0, 127} && BitErrors(a, b) == 2
    ensures Crc8(a, init) == Crc8(b, init)
  {
    TwoTermsDivisible(0, 127);
    assert {0, 0 + 127} == {0, 127};
    b := MissedErrors(a, {0, 127}, init);
  }

  lemma GeneratorDivides()
    ensures Divides(G)
  {
    TimesGOfOne();
  }

  lemma GeneratorFits()
    ensures |G| == 4 && DegreeBelow(G, 16)
  {
  }

  /** Every block of two bytes or more has a four-bit error that goes undetected: the generator itself. */
  lemma FourBitErrorMissed(a: seq<bv8>, init: bv8) returns (b: seq<bv8>)
    requires |a| >= 2
    ensures |a| == |b| && Differing(a, b) == G && BitErrors(a, b) == 4
    ensures Crc8(a, init) == Crc8(b, init)
  {
    GeneratorDivides();
    GeneratorFits();
    b := MissedErrors(a, G, init);
  }

  /** Every error in exactly `e` bits of a block of `n` bytes is detected. */
  ghost predicate AllErrorsDetected(e: nat, n: nat, init: bv8) {
    forall a: seq<bv8>, b: seq<bv8> :: |a| == |b| == n && BitErrors(a, b) == e ==> Crc8(a, init) != Crc8(b, init)
  }

  lemma OneByteErrorsDetected(a: seq<bv8>, b: seq<bv8>, init: bv8)
    requires |a| == |b| <= 1 && BitErrors(a, b) > 0
    ensures Crc8(a, init) != Crc8(b, init)
  {
    DifferencesInRange(a, b);
    DifferingSize(a, b);
    SameBlocksOnly(a, b);
    BurstsDetected(a, b, init, 0);
  }

  lemma FewErrorsDetected(a: seq<bv8>, b: seq<bv8>, init: bv8)
    requires |a| == |b|
    requires var e := BitErrors(a, b); e % 2 == 1 || (e == 2 && |a| <= 15) || (e == 4 && |a| <= 1)
    ensures Crc8(a, init) != Crc8(b, init)
  {
    if BitErrors(a, b) % 2 == 1 {
      OddErrorsDetected(a, b, init);
    } else if BitErrors(a, b) == 2 {
      ShortTwoBitErrorsDetected(a, b, init);
    } else {
      OneByteErrorsDetected(a, b, init);
    }
  }

  lemma LimitsMissed(e: nat, n: nat, init: bv8)
    requires (e == 2 && n > 15) || (e == 4 && n > 1)
    ensures !AllErrorsDetected(e, n, init)
  {
    var zeros := seq(n, _ => 0x00 as bv8);
    if e == 2 {
      var b := LongBlocksMissAnError(zeros, init);
      assert |b| == n && BitErrors(zeros, b) == e;
    } else {
      var b := FourBitErrorMissed(zeros, init);
      assert |b| == n && BitErrors(zeros, b) == e;
    }
  }

  /** Where detection starts and stops for up to four wrong bits: one and three are detected at any length, two up to
      15 bytes, four only within a single byte. */
  lemma DetectedExactly(e: nat, n: nat, init: bv8)
    requires 1 <= e <= 4
    ensures AllErrorsDetected(e, n, init) <==> e % 2 == 1 || (e == 2 && n <= 15) || (e == 4 && n <= 1)
  {
    if e % 2 == 1 || (e == 2 && n <= 15) || (e == 4 && n <= 1) {
      forall a: seq<bv8>, b: seq<bv8> | |a| == |b| == n && BitErrors(a, b) == e ensures Crc8(a, init) != Crc8(b, init) {
        FewErrorsDetected(a, b, init);
      }
    } else {
      LimitsMissed(e, n, init);
    }
  }

  /** The length limit in the header is exact: all two-bit errors in blocks of n bytes are detected if and only if
      n is at most 15. */
  lemma MaxLenExactly(n: nat, init: bv8)
    ensures AllErrorsDetected(2, n, init) <==> n <= 15
  {
    DetectedExactly(2, n, init);
  }

  // ---------- Which errors are detected at any length ----------

  lemma DividesAdds(p: Poly, q: Poly)
    requires Divides(p) && Divides(q)
    ensures Divides(Add(p, q))
  {
    DividesMeansZeroRemainder(p);
    DividesMeansZeroRemainder(q);
    DividesMeansZeroRemainder(Add(p, q));
    RemainderAdds(p, {}, q, {});
    AddSelf({});
  }

  lemma ZeroDivides()
    ensures Divides({})
  {
    TimesGOfZero();
  }

  /** `m` pairs of bits, the two of a pair 127 places apart. */
  function FarPairs(m: nat): Poly {
    if m == 0 then {} else FarPairs(m - 1) + {254 * (m - 1), 254 * (m - 1) + 127}
  }

  lemma {:induction false} FarPairsBelow(m: nat)
    ensures DegreeBelow(FarPairs(m), 254 * m)
  {
    if m == 0 {
    } else {
      FarPairsBelow(m - 1);
    }
  }

  lemma {:induction false} FarPairsSize(m: nat)
    ensures |FarPairs(m)| == 2 * m
  {
    if m == 0 {
    } else {
      FarPairsSize(m - 1);
      FarPairsBelow(m - 1);
      assert FarPairs(m - 1) !! {254 * (m - 1), 254 * (m - 1) + 127};
    }
  }

  lemma FarPairsAdd(m: nat)
    ensures FarPairs(m + 1) == Add(FarPairs(m), {254 * m, 254 * m + 127})
  {
    FarPairsBelow(m);
  }

  lemma FarPairDivides(m: nat)
    ensures Divides({254 * m, 254 * m + 127})
  {
    TwoTermsDivisible(254 * m, 127);
  }

  /** Whatever holds of 0 and of each pair, and of sums, holds of all of them together. */
  lemma {:induction false} SumOfPairs(holds: Poly -> bool, m: nat)
    requires holds({}) && forall k: nat :: holds({254 * k, 254 * k + 127})
    requires forall p, q :: holds(p) && holds(q) ==> holds(Add(p, q))
    ensures holds(FarPairs(m))
  {
    if m == 0 {
    } else {
      SumOfPairs(holds, m - 1);
      FarPairsAdd(m - 1);
      assert holds({254 * (m - 1), 254 * (m - 1) + 127});
    }
  }

  lemma FarPairsDivide(m: nat)
    ensures Divides(FarPairs(m))
  {
    ZeroDivides();
    forall k: nat ensures Divides({254 * k, 254 * k + 127}) {
      FarPairDivides(k);
    }
    forall p, q | Divides(p) && Divides(q) ensures Divides(Add(p, q)) {
      DividesAdds(p, q);
    }
    SumOfPairs(p => Divides(p), m);
  }

  lemma EvenErrorsMissed(e: nat, n: nat, init: bv8)
    requires e % 2 == 0 && n >= 16 * e
    ensures !AllErrorsDetected(e, n, init)
  {
    var zeros := seq(n, _ => 0x00 as bv8);
    FarPairsBelow(e / 2);
    FarPairsSize(e / 2);
    FarPairsDivide(e / 2);
    var b := MissedErrors(zeros, FarPairs(e / 2), init);
    assert |zeros| == |b| == n && BitErrors(zeros, b) == e;
  }

  /** The parity errors of the header are exactly the errors that are detected whatever the length of the block: all
      errors in `e` bits are detected at every length if and only if `e` is odd. */
  lemma AlwaysDetectedExactly(e: nat, init: bv8)
    ensures (forall n :: AllErrorsDetected(e, n, init)) <==> e % 2 == 1
  {
    if e % 2 == 1 {
      forall n: nat ensures AllErrorsDetected(e, n, init) {
        forall a: seq<bv8>, b: seq<bv8> | |a| == |b| == n && BitErrors(a, b) == e
          ensures Crc8(a, init) != Crc8(b, init)
        {
          OddErrorsDetected(a, b, init);
        }
      }
    } else {
      EvenErrorsMissed(e, 16 * e, init);
    }
  }

  /** Every error whose wrong bits all lie within some `len` consecutive ones is detected in blocks of `n` bytes. */
  ghost predicate AllBurstsDetected(len: nat, n: nat, init: bv8) {
    forall a: seq<bv8>, b: seq<bv8>, lo: nat ::
      |a| == |b| == n && a != b && InBurst(Differing(a, b), lo, len) ==> Crc8(a, init) != Crc8(b, init)
  }

  /** Bursts are detected exactly up to 8 bits, or if there is only one byte. */
  lemma BurstsExactly(len: nat, n: nat, init: bv8)
    ensures AllBurstsDetected(len, n, init) <==> len <= 8 || n <= 1
  {
    if len <= 8 || n <= 1 {
      forall a: seq<bv8>, b: seq<bv8>, lo: nat | |a| == |b| == n && a != b && InBurst(Differing(a, b), lo, len)
        ensures Crc8(a, init) != Crc8(b, init)
      {
        DifferencesInRange(a, b);
        BurstsDetected(a, b, init, if len <= 8 then lo else 0);
      }
    } else {
      var zeros := seq(n, _ => 0x00 as bv8);
      var b := FourBitErrorMissed(zeros, init);
      assert Differing(zeros, zeros) == {} by { AddSelf(DataPoly(zeros)); }
      assert InBurst(Differing(zeros, b), 0, len);
    }
  }

  // ---------- Blocks sent with their CRC ----------

  /** A block with its CRC byte: the data come first, unchanged. */
  function Sent(data: seq<bv8>, init: bv8): (block: seq<bv8>)
    ensures |block| == |data| + 1 && block[..|data|] == data
  {
    data + [Crc8(data, init)]
  }

  /** A block followed by its own CRC has CRC 0. */
  lemma SentHasCrcZero(data: seq<bv8>, init: bv8)
    ensures Crc8(Sent(data, init), init) == 0
  {
    StepsOfZero(8);
  }

  lemma {:induction false} StepsOfZero(k: nat)
    ensures Steps(k, 0) == 0
  {
    if k == 0 {
    } else {
      StepsOfZero(k - 1);
    }
  }

  /** A received block passes the check exactly when its difference from the block sent is a multiple of the
      generator. */
  lemma ReceivedBlockPassesExactly(data: seq<bv8>, init: bv8, received: seq<bv8>)
    requires |received| == |data| + 1
    ensures Crc8(received, init) == 0 <==> Divides(Differing(Sent(data, init), received))
  {
    SentHasCrcZero(data, init);
    UndetectedExactlyWhenDivisible(Sent(data, init), received, init);
  }

  /** No error in exactly `e` bits of a block of `n` data bytes and its CRC byte passes the check. */
  ghost predicate SentSafely(e: nat, n: nat, init: bv8) {
    forall data: seq<bv8>, received: seq<bv8> ::
      |data| == n && |received| == n + 1 && BitErrors(Sent(data, init), received) == e ==> Crc8(received, init) != 0
  }

  /** The CRC byte counts as one more byte of the block, no more and no less. */
  lemma SentLikeLongerBlock(e: nat, n: nat, init: bv8)
    ensures SentSafely(e, n, init) <==> AllErrorsDetected(e, n + 1, init)
  {
    if AllErrorsDetected(e, n + 1, init) {
      forall data: seq<bv8>, received: seq<bv8>
        | |data| == n && |received| == n + 1 && BitErrors(Sent(data, init), received) == e
        ensures Crc8(received, init) != 0
      {
        SentHasCrcZero(data, init);
      }
    }
    if a: seq<bv8>, b: seq<bv8> :| |a| == |b| == n + 1 && BitErrors(a, b) == e && Crc8(a, init) == Crc8(b, init) {
      var data := seq(n, _ => 0x00 as bv8);
      var received := MissedErrorPasses(a, b, init, data);
      assert |data| == n && |received| == n + 1 && BitErrors(Sent(data, init), received) == e;
    }
  }

  /** An error missed in one block is missed in every block of that length, and so in a block that was sent. */
  lemma MissedErrorPasses(a: seq<bv8>, b: seq<bv8>, init: bv8, data: seq<bv8>) returns (received: seq<bv8>)
    requires |a| == |b| == |data| + 1 && Crc8(a, init) == Crc8(b, init)
    ensures |received| == |data| + 1 && BitErrors(Sent(data, init), received) == BitErrors(a, b)
    ensures Crc8(received, init) == 0
  {
    UndetectedExactlyWhenDivisible(a, b, init);
    DifferencesInRange(a, b);
    DifferingSize(a, b);
    received := MissedErrors(Sent(data, init), Differing(a, b), init);
    SentHasCrcZero(data, init);
  }

  /** So for up to four wrong bits, in the data or in the CRC byte, each length limit is one byte less: 14 data bytes
      for two-bit errors, not the header's 15. */
  lemma SentSafelyExactly(e: nat, n: nat, init: bv8)
    requires 1 <= e <= 4
    ensures SentSafely(e, n, init) <==> e % 2 == 1 || (e == 2 && n <= 14) || (e == 4 && n == 0)
  {
    SentLikeLongerBlock(e, n, init);
    DetectedExactly(e, n + 1, init);
  }

  /** And the errors that never pass, whatever the length, are again exactly the odd ones. */
  lemma AlwaysSentSafelyExactly(e: nat, init: bv8)
    ensures (forall n :: SentSafely(e, n, init)) <==> e % 2 == 1
  {
    if e % 2 == 1 {
      AlwaysDetectedExactly(e, init);
      forall n: nat ensures SentSafely(e, n, init) {
        SentLikeLongerBlock(e, n, init);
      }
    } else {
      SentLikeLongerBlock(e, 16 * e, init);
      EvenErrorsMissed(e, 16 * e + 1, init);
    }
  }

  /** No burst of up to 8 bits, in the data, in the CRC byte or across the two, passes the check. */
  lemma ReceivedBurstsDetected(data: seq<bv8>, init: bv8, received: seq<bv8>, lo: nat)
    requires |received| == |data| + 1 && received != Sent(data, init)
    requires InBurst(Differing(Sent(data, init), received), lo, 8)
    ensures Crc8(received, init) != 0
  {
    SentHasCrcZero(data, init);
    BurstsDetected(Sent(data, init), received, init, lo);
  }
}
