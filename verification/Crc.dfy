/** `crc8` of crc8.c and its meaning as polynomial division.

    A block of n bytes is the polynomial whose coefficient at x^(8(n-1-i)+j) is bit j of byte i: the first byte
    comes first, the most significant bit of each byte first.
 */
module Crc {
  import opened Polynomials

  // ---------- The computation ----------

  /** One pass of the inner loop. */
  function BitStep(c: bv8): bv8 {
    if c & 0x80 != 0 then (c << 1) ^ 0x31 else c << 1
  }

  function Steps(k: nat, c: bv8): bv8 {
    if k == 0 then c else BitStep(Steps(k - 1, c))
  }

  /** The CRC of a block, started from `init`. */
  function Crc8(data: seq<bv8>, init: bv8): bv8 {
    if data == [] then init else Steps(8, Crc8(data[..|data| - 1], init) ^ data[|data| - 1])
  }

  /** `crc8`: `len` bytes from the start of the block. The shift and the exclusive-or are done in a wider type, as
      C does after promotion; the assignment to an `unsigned char` drops the high bits. */
  method ComputeCrc8(pcBlock: array<bv8>, len: nat, init: bv8) returns (crc: bv8)
    requires len <= pcBlock.Length
    ensures crc == Crc8(pcBlock[..len], init)
  {
    crc := init;
    var left, next := len, 0;
    while left > 0
      invariant next + left == len
      invariant crc == Crc8(pcBlock[..next], init)
    {
      left := left - 1;
      crc := crc ^ pcBlock[next];
      assert pcBlock[..next + 1][..next] == pcBlock[..next];
      next := next + 1;
      ghost var mixed := crc;
      for i := 0 to 8
        invariant crc == Steps(i, mixed)
      {
        var wide: bv16 := crc as bv16;
        wide := if crc & 0x80 != 0 then (wide << 1) ^ 0x31 else wide << 1;
        TruncationIsBitStep(crc, wide);
        crc := (wide & 0xFF) as bv8;
      }
    }
  }

  lemma TruncationIsBitStep(c: bv8, wide: bv16)
    requires wide == if c & 0x80 != 0 then ((c as bv16) << 1) ^ 0x31 else (c as bv16) << 1
    ensures wide & 0xFF <= 0xFF && (wide & 0xFF) as bv8 == BitStep(c)
  {
  }

  // ---------- Bytes as polynomials ----------

  /** Bit `j` of a byte; the shift is spelled out so that `j` can be any number. */
  function Mask(j: nat): bv8 {
    if j == 0 then 0x01 else if j == 1 then 0x02 else if j == 2 then 0x04 else if j == 3 then 0x08
    else if j == 4 then 0x10 else if j == 5 then 0x20 else if j == 6 then 0x40 else if j == 7 then 0x80 else 0x00
  }

  function Bits(c: bv8): Poly {
    set j: nat | j < 8 && c & Mask(j) != 0
  }

  lemma BitsOfXor(a: bv8, b: bv8)
    ensures Bits(a ^ b) == Add(Bits(a), Bits(b))
  {
    forall j: nat | j < 8 ensures (a ^ b) & Mask(j) != 0 <==> (a & Mask(j) != 0) != (b & Mask(j) != 0) {
      MaskXor(a, b, j);
    }
  }

  lemma MaskXor(a: bv8, b: bv8, j: nat)
    requires j < 8
    ensures (a ^ b) & Mask(j) != 0 <==> (a & Mask(j) != 0) != (b & Mask(j) != 0)
  {
  }

  lemma BitsOfStep(c: bv8)
    ensures Bits(BitStep(c)) == TimesX(Bits(c))
  {
    forall j: nat ensures j in Bits(BitStep(c)) <==> j in TimesX(Bits(c)) {
      BitOfStep(c, j);
    }
  }

  lemma BitOfStep(c: bv8, j: nat)
    ensures j in Bits(BitStep(c)) <==> j in TimesX(Bits(c))
  {
    InTimesX(Bits(c), j);
    if j < 8 {
      MaskStep(c, j);
    }
  }

  lemma MaskStep(c: bv8, j: nat)
    requires j < 8
    ensures BitStep(c) & Mask(j) != 0
       <==> (j > 0 && c & Mask(j - 1) != 0) != (c & Mask(7) != 0 && j in G)
  {
  }

  lemma BitsInjective(a: bv8, b: bv8)
    requires Bits(a) == Bits(b)
    ensures a == b
  {
    forall j: nat | j < 8 ensures a & Mask(j) != 0 <==> b & Mask(j) != 0 {
      assert j in Bits(a) <==> j in Bits(b);
    }
    assert a & Mask(0) != 0 <==> b & Mask(0) != 0;
    assert a & Mask(1) != 0 <==> b & Mask(1) != 0;
    assert a & Mask(2) != 0 <==> b & Mask(2) != 0;
    assert a & Mask(3) != 0 <==> b & Mask(3) != 0;
    assert a & Mask(4) != 0 <==> b & Mask(4) != 0;
    assert a & Mask(5) != 0 <==> b & Mask(5) != 0;
    assert a & Mask(6) != 0 <==> b & Mask(6) != 0;
    assert a & Mask(7) != 0 <==> b & Mask(7) != 0;
    SameMasksSameByte(a, b);
  }

  lemma SameMasksSameByte(a: bv8, b: bv8)
    requires (a & 0x01 != 0 <==> b & 0x01 != 0) && (a & 0x02 != 0 <==> b & 0x02 != 0)
    requires (a & 0x04 != 0 <==> b & 0x04 != 0) && (a & 0x08 != 0 <==> b & 0x08 != 0)
    requires (a & 0x10 != 0 <==> b & 0x10 != 0) && (a & 0x20 != 0 <==> b & 0x20 != 0)
    requires (a & 0x40 != 0 <==> b & 0x40 != 0) && (a & 0x80 != 0 <==> b & 0x80 != 0)
    ensures a == b
  {
  }

  /** The polynomial of a block. */
  function DataPoly(data: seq<bv8>): Poly {
    if data == [] then {} else Add(Shift(DataPoly(data[..|data| - 1]), 8), Bits(data[|data| - 1]))
  }

  /** Every coefficient: bit j of byte i stands at x^(8(n-1-i)+j), and there is nothing at x^(8n) or above. */
  lemma {:induction false} InDataPoly(data: seq<bv8>, e: nat)
    ensures e in DataPoly(data) <==> e / 8 < |data| && e % 8 in Bits(data[|data| - 1 - e / 8])
  {
    if data == [] {
    } else {
      var init := data[..|data| - 1];
      InAdd(Shift(DataPoly(init), 8), Bits(data[|data| - 1]), e);
      InShift(DataPoly(init), 8, e);
      if e >= 8 {
        InDataPoly(init, e - 8);
        assert (e - 8) / 8 == e / 8 - 1 && (e - 8) % 8 == e % 8;
      } else {
        assert e / 8 == 0 && e % 8 == e;
      }
    }
  }

  // ---------- crc8 is polynomial division ----------

  lemma OneStepShifts(c: bv8, p: Poly)
    requires IsRemainder(p, Bits(c))
    ensures IsRemainder(Shift(p, 1), Bits(BitStep(c)))
  {
    RemainderTimesX(p, Bits(c));
    BitsOfStep(c);
  }

  lemma {:induction false} StepsShift(k: nat, c: bv8, p: Poly)
    requires IsRemainder(p, Bits(c))
    ensures IsRemainder(Shift(p, k), Bits(Steps(k, c)))
  {
    if k == 0 {
      ShiftZero(p);
    } else {
      StepsShift(k - 1, c, p);
      OneStepShifts(Steps(k - 1, c), Shift(p, k - 1));
      ShiftShift(p, k - 1, 1);
    }
  }

  /** init * x^(8n) + data * x^8. */
  function Dividend(data: seq<bv8>, init: bv8): Poly {
    Add(Shift(Bits(init), 8 * |data|), Shift(DataPoly(data), 8))
  }

  lemma SmallIsItsOwnRemainder(r: Poly)
    requires DegreeBelow(r, 8)
    ensures IsRemainder(r, r)
  {
    TimesGOfZero();
    AddSelf(r);
    assert r == Add(TimesG({}), r);
  }

  lemma DividendGrows(data: seq<bv8>, b: bv8, init: bv8)
    ensures Dividend(data + [b], init) == Shift(Add(Dividend(data, init), Bits(b)), 8)
  {
    var longer := data + [b];
    assert longer[..|longer| - 1] == data;
    var i, d := Shift(Bits(init), 8 * |data|), Shift(DataPoly(data), 8);
    ShiftShift(Bits(init), 8 * |data|, 8);
    AddAssociates(i, d, Bits(b));
    ShiftAdds(i, Add(d, Bits(b)), 8);
  }

  /** For every block and every start value, the loops compute the remainder of init * x^(8n) + data * x^8 on
      division by x^8 + x^5 + x^4 + 1. Remainders are unique, so this fixes the result. */
  lemma {:induction false} CrcIsRemainder(data: seq<bv8>, init: bv8)
    ensures IsRemainder(Dividend(data, init), Bits(Crc8(data, init)))
  {
    if data == [] {
      ShiftZero(Bits(init));
      assert Shift({}, 8) == {};
      AddSelf(Bits(init));
      SmallIsItsOwnRemainder(Bits(init));
    } else {
      var front, b := data[..|data| - 1], data[|data| - 1];
      var r := Crc8(front, init);
      CrcIsRemainder(front, init);
      SmallIsItsOwnRemainder(Bits(b));
      RemainderAdds(Dividend(front, init), Bits(r), Bits(b), Bits(b));
      BitsOfXor(r, b);
      StepsShift(8, r ^ b, Add(Dividend(front, init), Bits(b)));
      assert front + [b] == data;
      DividendGrows(front, b, init);
    }
  }

  /** The converse: whatever byte is a remainder is the CRC. */
  lemma RemainderIsCrc(data: seq<bv8>, init: bv8, c: bv8)
    ensures c == Crc8(data, init) <==> IsRemainder(Dividend(data, init), Bits(c))
  {
    CrcIsRemainder(data, init);
    if IsRemainder(Dividend(data, init), Bits(c)) {
      RemainderUnique(Dividend(data, init), Bits(c), Bits(Crc8(data, init)));
      BitsInjective(c, Crc8(data, init));
    }
  }

  // ---------- Linearity and bijectivity ----------

  function Xor(a: seq<bv8>, b: seq<bv8>): seq<bv8>
    requires |a| == |b|
  {
    seq(|a|, i requires 0 <= i < |a| => a[i] ^ b[i])
  }

  lemma {:induction false} DataPolyXor(a: seq<bv8>, b: seq<bv8>)
    requires |a| == |b|
    ensures DataPoly(Xor(a, b)) == Add(DataPoly(a), DataPoly(b))
  {
    if a == [] {
    } else {
      var n := |a| - 1;
      assert Xor(a, b)[..n] == Xor(a[..n], b[..n]);
      DataPolyXor(a[..n], b[..n]);
      BitsOfXor(a[n], b[n]);
      ShiftAdds(DataPoly(a[..n]), DataPoly(b[..n]), 8);
      AddSwapsMiddle(Shift(DataPoly(a[..n]), 8), Shift(DataPoly(b[..n]), 8), Bits(a[n]), Bits(b[n]));
    }
  }

  lemma DividendXor(a: seq<bv8>, i: bv8, b: seq<bv8>, j: bv8)
    requires |a| == |b|
    ensures Dividend(Xor(a, b), i ^ j) == Add(Dividend(a, i), Dividend(b, j))
  {
    var n := 8 * |a|;
    DataPolyXor(a, b);
    BitsOfXor(i, j);
    ShiftAdds(Bits(i), Bits(j), n);
    ShiftAdds(DataPoly(a), DataPoly(b), 8);
    AddSwapsMiddle(Shift(Bits(i), n), Shift(Bits(j), n), Shift(DataPoly(a), 8), Shift(DataPoly(b), 8));
  }

  /** The CRC of a bitwise sum is the bitwise sum of the CRCs. */
  lemma CrcLinear(a: seq<bv8>, i: bv8, b: seq<bv8>, j: bv8)
    requires |a| == |b|
    ensures Crc8(Xor(a, b), i ^ j) == Crc8(a, i) ^ Crc8(b, j)
  {
    CrcIsRemainder(a, i);
    CrcIsRemainder(b, j);
    RemainderAdds(Dividend(a, i), Bits(Crc8(a, i)), Dividend(b, j), Bits(Crc8(b, j)));
    DividendXor(a, i, b, j);
    BitsOfXor(Crc8(a, i), Crc8(b, j));
    RemainderIsCrc(Xor(a, b), i ^ j, Crc8(a, i) ^ Crc8(b, j));
  }

  /** The inverse of `BitStep`: the generator's constant term tells whether it was subtracted. */
  function BitBack(c: bv8): bv8 {
    if c & 0x01 != 0 then ((c ^ 0x31) >> 1) | 0x80 else c >> 1
  }

  function StepsBack(k: nat, c: bv8): bv8 {
    if k == 0 then c else StepsBack(k - 1, BitBack(c))
  }

  lemma BitBackInverts(c: bv8)
    ensures BitBack(BitStep(c)) == c && BitStep(BitBack(c)) == c
  {
  }

  lemma {:induction false} StepsBackInverts(k: nat, c: bv8)
    ensures StepsBack(k, Steps(k, c)) == c && Steps(k, StepsBack(k, c)) == c
  {
    if k == 0 {
    } else {
      BitBackInverts(Steps(k - 1, c));
      StepsBackInverts(k - 1, c);
      BitBackInverts(c);
      StepsBackInverts(k - 1, BitBack(c));
    }
  }

  /** A fold over the bytes; `Next` absorbs one byte and `Undo` takes it out again. */
  function Fold<S, B>(f: (S, B) -> S, data: seq<B>, s: S): S {
    if data == [] then s else f(Fold(f, data[..|data| - 1], s), data[|data| - 1])
  }

  function Unfold<S, B>(g: (S, B) -> S, data: seq<B>, s: S): S {
    if data == [] then s else Unfold(g, data[..|data| - 1], g(s, data[|data| - 1]))
  }

  lemma {:induction false} FoldUnfold<S(!new), B(!new)>(f: (S, B) -> S, g: (S, B) -> S, data: seq<B>, s: S)
    requires forall x, b :: g(f(x, b), b) == x && f(g(x, b), b) == x
    ensures Unfold(g, data, Fold(f, data, s)) == s && Fold(f, data, Unfold(g, data, s)) == s
  {
    if data == [] {
    } else {
      var front, b := data[..|data| - 1], data[|data| - 1];
      FoldUnfold(f, g, front, s);
      FoldUnfold(f, g, front, g(s, b));
    }
  }

  function Next(): (bv8, bv8) -> bv8 { (c, b) => Steps(8, c ^ b) }

  function Undo(): (bv8, bv8) -> bv8 { (c, b) => StepsBack(8, c) ^ b }

  lemma {:induction false} CrcIsFold(data: seq<bv8>, init: bv8)
    ensures Crc8(data, init) == Fold(Next(), data, init)
  {
    if data == [] {
    } else {
      CrcIsFold(data[..|data| - 1], init);
    }
  }

  lemma NextIs(c: bv8, b: bv8)
    ensures Next()(c, b) == Steps(8, c ^ b)
  {
  }

  lemma UndoIs(c: bv8, b: bv8)
    ensures Undo()(c, b) == StepsBack(8, c) ^ b
  {
  }

  lemma UndoNext(c: bv8, b: bv8)
    ensures Undo()(Next()(c, b), b) == c
  {
    ByteInverts(c, b);
    NextIs(c, b);
    UndoIs(Next()(c, b), b);
  }

  lemma NextUndo(c: bv8, b: bv8)
    ensures Next()(Undo()(c, b), b) == c
  {
    ByteInverts(c, b);
    UndoIs(c, b);
    NextIs(Undo()(c, b), b);
  }

  lemma ByteInverts(c: bv8, b: bv8)
    ensures StepsBack(8, Steps(8, c ^ b)) ^ b == c
    ensures Steps(8, (StepsBack(8, c) ^ b) ^ b) == c
  {
    StepsBackInverts(8, c ^ b);
    XorCancels(c, b);
    XorCancels(StepsBack(8, c), b);
    StepsBackInverts(8, c);
  }

  lemma XorCancels(r: bv8, b: bv8)
    ensures (r ^ b) ^ b == r
  {
  }

  /** For fixed data the CRC is a bijection of the start value: undoing the bytes from the last to the first
      leads back to it, and to the only start value with that CRC. */
  lemma CrcBijective(data: seq<bv8>, c: bv8)
    ensures Unfold(Undo(), data, Crc8(data, c)) == c
    ensures Crc8(data, Unfold(Undo(), data, c)) == c
  {
    forall x, b ensures Undo()(Next()(x, b), b) == x && Next()(Undo()(x, b), b) == x {
      UndoNext(x, b);
      NextUndo(x, b);
    }
    FoldUnfold(Next(), Undo(), data, c);
    CrcIsFold(data, c);
    CrcIsFold(data, Unfold(Undo(), data, c));
  }

  // ---------- Blocks in sequence ----------

  /** The CRC of a concatenation: the CRC of the first part is the start value of the second. */
  lemma {:induction false} CrcConcat(a: seq<bv8>, b: seq<bv8>, init: bv8)
    ensures Crc8(a + b, init) == Crc8(b, Crc8(a, init))
  {
    if b == [] {
      assert a + b == a;
    } else {
      assert (a + b)[..|a + b| - 1] == a + b[..|b| - 1];
      CrcConcat(a, b[..|b| - 1], init);
    }
  }

  /** The ASCII text "123456789". */
  const CHECK_TEXT: seq<bv8> := [0x31, 0x32, 0x33, 0x34, 0x35, 0x36, 0x37, 0x38, 0x39]

  /** The check value given with the code: the CRC of "123456789" from 0xFF is 0xF7. */
  lemma CheckValue()
    ensures Crc8(CHECK_TEXT, 0xFF) == 0xF7
  {
    CheckFirstThree(CHECK_TEXT);
    CheckMiddleThree(CHECK_TEXT);
    CheckLastThree(CHECK_TEXT);
    assert CHECK_TEXT[..9] == CHECK_TEXT;
  }

  lemma CheckFirstThree(d: seq<bv8>)
    requires |d| == 9 && d[0] == 0x31 && d[1] == 0x32 && d[2] == 0x33
    ensures Crc8(d[..3], 0xFF) == 0x2D
  {
    CheckSteps();
    NextByte(d, 0, 0xFF, 0xFF, 0x58);
    NextByte(d, 1, 0xFF, 0x58, 0x60);
    NextByte(d, 2, 0xFF, 0x60, 0x2D);
  }

  lemma CheckMiddleThree(d: seq<bv8>)
    requires |d| == 9 && d[3] == 0x34 && d[4] == 0x35 && d[5] == 0x36 && Crc8(d[..3], 0xFF) == 0x2D
    ensures Crc8(d[..6], 0xFF) == 0x16
  {
    CheckSteps();
    NextByte(d, 3, 0xFF, 0x2D, 0xCB);
    NextByte(d, 4, 0xFF, 0xCB, 0x9D);
    NextByte(d, 5, 0xFF, 0x9D, 0x16);
  }

  lemma CheckLastThree(d: seq<bv8>)
    requires |d| == 9 && d[6] == 0x37 && d[7] == 0x38 && d[8] == 0x39 && Crc8(d[..6], 0xFF) == 0x16
    ensures Crc8(d[..9], 0xFF) == 0xF7
  {
    CheckSteps();
    NextByte(d, 6, 0xFF, 0x16, 0xB7);
    NextByte(d, 7, 0xFF, 0xB7, 0x54);
    NextByte(d, 8, 0xFF, 0x54, 0xF7);
  }

  lemma CheckSteps()
    ensures Eight(0xFF ^ 0x31) == 0x58 && Eight(0x58 ^ 0x32) == 0x60 && Eight(0x60 ^ 0x33) == 0x2D
    ensures Eight(0x2D ^ 0x34) == 0xCB && Eight(0xCB ^ 0x35) == 0x9D && Eight(0x9D ^ 0x36) == 0x16
    ensures Eight(0x16 ^ 0x37) == 0xB7 && Eight(0xB7 ^ 0x38) == 0x54 && Eight(0x54 ^ 0x39) == 0xF7
  {
  }

  /** If the CRC of the first `i` bytes is `before`, the next byte takes it to `after`. */
  lemma NextByte(data: seq<bv8>, i: nat, init: bv8, before: bv8, after: bv8)
    requires i < |data| && Crc8(data[..i], init) == before && Eight(before ^ data[i]) == after
    ensures Crc8(data[..i + 1], init) == after
  {
    assert data[..i + 1][..i] == data[..i];
    StepsEight(before ^ data[i]);
  }

  function Eight(c: bv8): bv8 {
    BitStep(BitStep(BitStep(BitStep(BitStep(BitStep(BitStep(BitStep(c))))))))
  }

  lemma StepsEight(c: bv8)
    ensures Steps(8, c) == Eight(c)
  {
    assert Steps(1, c) == BitStep(c);
    assert Steps(2, c) == BitStep(Steps(1, c));
    assert Steps(3, c) == BitStep(Steps(2, c));
    assert Steps(4, c) == BitStep(Steps(3, c));
    assert Steps(5, c) == BitStep(Steps(4, c));
    assert Steps(6, c) == BitStep(Steps(5, c));
    assert Steps(7, c) == BitStep(Steps(6, c));
  }
}
