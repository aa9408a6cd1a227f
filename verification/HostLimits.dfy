module HostLimits {
  // Where fixed host integer widths show through, with the exact inputs on which they do not matter.

  import opened Names
  import opened WordBits
  import opened WordVec
  import opened Planes
  import opened Congruence
  import opened Values
  import opened ValueArith
  import opened ValuePower
  import M = ValueMove

  /** `2^w` divides `y`. */
  ghost predicate Div2(y: int, w: nat) {
    y % Pow2(w) == 0
  }

  lemma Div2Cong(x: int, y: int, w: nat)
    ensures Cong(x, y, w) <==> Div2(x - y, w)
  {
    if Cong(x, y, w) {
      CongAdd(x, y, y, y, w);
      SmallMod(0, Pow2(w));
    }
    if Div2(x - y, w) {
      CongAdd(x - y, 0, y, y, w) by { SmallMod(0, Pow2(w)); }
    }
  }

  lemma Div2Half(y: int, w: nat)
    requires w > 0
    ensures Div2(2 * y, w) <==> Div2(y, w - 1)
  {
    var p := Pow2(w - 1);
    if Div2(2 * y, w) {
      var k := (2 * y) / Pow2(w);
      assert 2 * y == 2 * (p * k);
      DivUnique(y, p, k, 0);
    }
    if Div2(y, w - 1) {
      var k := y / p;
      assert 2 * y == (2 * p) * k;
      DivUnique(2 * y, 2 * p, k, 0);
    }
  }

  lemma EvenWhenDivisible(y: int, w: nat)
    requires w > 0 && Div2(y, w)
    ensures y % 2 == 0
  {
    var k := y / Pow2(w);
    assert y == 2 * (Pow2(w - 1) * k);
  }

  lemma OddTimesOdd(u: int, y: int)
    requires u % 2 == 1
    ensures (u * y) % 2 == y % 2
  {
    var k := u / 2;
    assert u * y == 2 * (k * y) + y;
  }

  /** An odd factor is invisible to divisibility by a power of two. */
  lemma {:induction false} OddCancel(u: int, y: int, w: nat)
    requires u % 2 == 1
    ensures Div2(u * y, w) <==> Div2(y, w)
    decreases w
  {
    if w > 0 {
      OddTimesOdd(u, y);
      if y % 2 == 0 {
        var h := y / 2;
        OddCancel(u, h, w - 1);
        Div2Half(h, w);
        Div2Half(u * h, w);
        assert u * y == 2 * (u * h) by { assert y == 2 * h; }
      } else {
        if Div2(u * y, w) { EvenWhenDivisible(u * y, w); }
        if Div2(y, w) { EvenWhenDivisible(y, w); }
      }
    }
  }

  /** `1 + c + ... + c^(m-1)` */
  ghost function Geometric(c: int, m: nat): int {
    if m == 0 then 0 else 1 + c * Geometric(c, m - 1)
  }

  lemma {:induction false} GeometricSum(c: int, m: nat)
    ensures Exp(c, m) - 1 == (c - 1) * Geometric(c, m)
  {
    if m > 0 {
      GeometricSum(c, m - 1);
      var g := Geometric(c, m - 1);
      GeometricStep(c, Exp(c, m - 1), g);
    }
  }

  lemma GeometricStep(c: int, e: int, g: int)
    requires e - 1 == (c - 1) * g
    ensures c * e - 1 == (c - 1) * (1 + c * g)
  {
    assert c * e == c * (1 + (c - 1) * g) == c + c * ((c - 1) * g);
    assert c * ((c - 1) * g) == (c - 1) * (c * g);
  }

  lemma {:induction false} GeometricOdd(c: int, m: nat)
    requires c % 2 == 1
    ensures Geometric(c, m) % 2 == m % 2
  {
    if m > 0 {
      GeometricOdd(c, m - 1);
      OddTimesOdd(c, Geometric(c, m - 1));
      OnePlus(c * Geometric(c, m - 1), m);
    }
  }

  lemma OnePlus(n: int, m: nat)
    requires m > 0 && n % 2 == (m - 1) % 2
    ensures (1 + n) % 2 == m % 2
  {}

  lemma SplitProduct(c: int, g: int, e: int, h: int)
    ensures c * (g + e * h) == c * g + (c * e) * h
  {
    Distribute(c, g, e * h);
    Assoc(c, e, h);
  }

  lemma {:induction false} GeometricSplit(c: int, i: nat, j: nat)
    ensures Geometric(c, i + j) == Geometric(c, i) + Exp(c, i) * Geometric(c, j)
  {
    if i > 0 {
      GeometricSplit(c, i - 1, j);
      var g, h, e := Geometric(c, i - 1), Geometric(c, j), Exp(c, i - 1);
      assert Geometric(c, i + j) == 1 + c * Geometric(c, i - 1 + j) && Geometric(c, i) == 1 + c * g && Exp(c, i) == c * e;
      SplitProduct(c, g, e, h);
    } else {
      assert Exp(c, 0) * Geometric(c, j) == Geometric(c, j);
    }
  }

  lemma {:induction false} PowerModFour(c: int, m: nat)
    requires c % 4 == 1
    ensures Exp(c, m) % 4 == 1
  {
    if m > 0 {
      PowerModFour(c, m - 1);
      var k, e := c / 4, Exp(c, m - 1);
      FourTimesPlus(k, e);
      FourDropped(k * e, e);
    }
  }

  lemma FourTimesPlus(k: int, e: int)
    ensures (4 * k + 1) * e == 4 * (k * e) + e
  {}

  lemma FourDropped(p: int, e: int)
    ensures (4 * p + e) % 4 == e % 4
  {}

  /** For `c = 1 mod 4`, the geometric sum has the same factors of two as its length. */
  lemma {:induction false} GeometricFactors(y: int, c: int, m: nat, w: nat)
    requires c % 4 == 1
    ensures Div2(y * Geometric(c, m), w) <==> Div2(y * m, w)
    decreases m
  {
    if m % 2 == 1 {
      hide Div2, Geometric;
      ModFourOdd(c);
      GeometricOdd(c, m);
      OddCancelRight(y, Geometric(c, m), w);
      OddCancelRight(y, m, w);
    } else if m > 0 {
      hide Div2, Geometric;
      GeometricFactors(2 * y, c, m / 2, w);
      GeometricDouble(y, c, m / 2, w);
      DoubleHalf(y, m);
    }
  }

  lemma ModFourOdd(c: int)
    requires c % 4 == 1
    ensures c % 2 == 1
  {
    DivUnique(c, 2, 2 * (c / 4), 1);
  }

  lemma DoubleHalf(y: int, m: nat)
    requires m % 2 == 0
    ensures 2 * y * (m / 2) == y * m && 2 * (m / 2) == m
  {
    Assoc(y, 2, m / 2);
  }

  lemma OddCancelRight(y: int, u: int, w: nat)
    requires u % 2 == 1
    ensures Div2(y * u, w) <==> Div2(y, w)
  {
    OddCancel(u, y, w);
    assert u * y == y * u;
  }

  /** Twice the terms: once more a factor of two, times an odd number. */
  lemma GeometricDouble(y: int, c: int, j: nat, w: nat)
    requires c % 4 == 1
    ensures Div2(y * Geometric(c, 2 * j), w) <==> Div2(2 * y * Geometric(c, j), w)
  {
    hide Div2, Geometric, Exp;
    PowerModFour(c, j);
    var t, g := (1 + Exp(c, j)) / 2, Geometric(c, j);
    GeometricSplit(c, j, j);
    Doubling(y, g, t, Exp(c, j));
    OddCancel(t, 2 * y * g, w);
  }

  lemma Doubling(y: int, g: int, t: int, e: int)
    requires 2 * t == 1 + e
    ensures y * (g + e * g) == t * (2 * y * g)
  {
    assert g + e * g == (1 + e) * g;
    assert y * ((2 * t) * g) == t * (2 * y * g);
  }

  /** `x^k = 1 mod 2^w` for odd `x`: lifting the exponent. */
  ghost predicate UnitPower(x: int, k: nat, w: nat) {
    if k % 2 == 1 then Div2(x - 1, w) else Div2((x * x - 1) * (k / 2), w)
  }

  lemma {:induction false} LiftedExponent(x: int, k: nat, w: nat)
    requires x % 2 == 1
    ensures Cong(Exp(x, k), 1, w) <==> UnitPower(x, k, w)
  {
    hide Div2, Pow2;
    Div2Cong(Exp(x, k), 1, w);
    if k % 2 == 1 {
      GeometricSum(x, k);
      GeometricOdd(x, k);
      OddCancel(Geometric(x, k), x - 1, w);
      assert Geometric(x, k) * (x - 1) == (x - 1) * Geometric(x, k);
    } else {
      var c, m := x * x, k / 2;
      ExpSquare(x, m);
      GeometricSum(c, m);
      SquareModFour(x);
      GeometricFactors(c - 1, c, m, w);
    }
  }

  lemma SquareModFour(x: int)
    requires x % 2 == 1
    ensures (x * x) % 4 == 1
  {
    var k := x / 2;
    assert x * x == 4 * (k * k + k) + 1 by { assert x == 2 * k + 1; }
  }

  lemma {:induction false} EvenPower(x: int, n: nat, w: nat)
    requires x % 2 == 0 && n >= w
    ensures Div2(Exp(x, n), w)
  {
    if w > 0 {
      EvenPower(x, n - 1, w - 1);
      var h, e := x / 2, Exp(x, n - 1);
      Div2Half(e, w);
      OneMultiple(h, 2 * e, w);
      assert Exp(x, n) == h * (2 * e) by { assert x == 2 * h; }
    }
  }

  lemma OneMultiple(h: int, y: int, w: nat)
    requires Div2(y, w)
    ensures Div2(h * y, w)
  {
    var p := Pow2(w);
    var k := y / p;
    assert h * y == p * (h * k) by { assert y == p * k; }
    DivUnique(h * y, p, h * k, 0);
  }

  /** The inputs on which stopping after `CAP` products loses nothing. */
  ghost predicate CapHarmless(x: int, e: nat, w: nat) {
    e <= CAP || x % 2 == 0 || UnitPower(x, e - CAP, w)
  }

  /** The capped loop of widths up to 128 is exact precisely on those inputs. */
  lemma {:induction false} CappedPowerExact(x: int, e: nat, w: nat)
    requires w <= 128
    ensures Cong(Exp(x, Min(e, CAP)), Exp(x, e), w) <==> CapHarmless(x, e, w)
  {
    hide Div2, Pow2, Exp, UnitPower;
    if e > CAP {
      var u, v := Exp(x, CAP), Exp(x, e - CAP);
      ExpAdd(x, CAP, e - CAP);
      if x % 2 == 0 {
        EvenPower(x, CAP, w);
        EvenPower(x, e, w);
        Div2Cong(u, 0, w);
        Div2Cong(Exp(x, e), 0, w);
      } else {
        LiftedExponent(x, e - CAP, w);
        Div2Cong(u, u * v, w);
        Div2Cong(v, 1, w);
        OddPower(x, CAP);
        OddCancel(u, v - 1, w);
        NegatedDiv2(u * (v - 1), w);
        assert u - u * v == -(u * (v - 1));
      }
    }
  }

  lemma NegatedDiv2(y: int, w: nat)
    ensures Div2(y, w) <==> Div2(-y, w)
  {
    if Div2(y, w) { OneMultiple(-1, y, w); }
    if Div2(-y, w) { OneMultiple(-1, -y, w); }
  }

  lemma {:induction false} OddPower(x: int, n: nat)
    requires x % 2 == 1
    ensures Exp(x, n) % 2 == 1
  {
    if n > 0 {
      OddPower(x, n - 1);
      OddTimesOdd(x, Exp(x, n - 1));
    }
  }

  /** 3 ** 4097 at 8 bits: the cap stops one product short. */
  lemma {:induction false} CapCounterexample()
    ensures !Cong(Exp(3, Min(4097, CAP)), Exp(3, 4097), 8)
  {
    CappedPowerExact(3, 4097, 8);
    assert Pow2(8) == 256;
    assert (3 - 1) % 256 == 2;
  }

  /** IEEE 1800-2017 section 11.4.3: an integer to a negative power, `None` being unknown. */
  function IdealNegative(x: int, e: int): Option<int> {
    if x == 0 then None
    else if x == 1 then Some(1)
    else if x == -1 then Some(if e % 2 == 0 then 1 else -1)
    else Some(0)
  }

  /** The bases a negative power is right for, checkable from the base's words and the exponent's parity. */
  ghost predicate NegativeSafe(a: Value, e: int) {
    var x := IntOf(a, a.signed);
    x != 0 &&
    if a.width <= 64 then a.width == 64 && !a.signed ==> x != BASE - 1
    else var low := AsI64(ToU64(a));
      (low != 1 && low != -1) || x == 1 || (x == -1 && e % 2 == 0)
  }

  lemma LowWord(v: Value)
    requires Known(v)
    ensures ToU64(v) == Low(ValPlane(v), 64)
  {
    hide Bit, RawWord, Pow2, Low;
    BaseIsPow2();
    forall i: nat | i < 64 ensures Bit(ToU64(v), i) == Bit(Low(ValPlane(v), 64), i) { KnownRaw(v, i); }
    SameBits(ToU64(v), Low(ValPlane(v), 64), 64);
  }

  /** What a negative exponent yields is the ideal result on exactly those bases. */
  lemma {:induction false} NegativePowerExact(a: Value, e: int)
    requires Known(a) && e < 0
    ensures var x := IntOf(a, a.signed);
      NegativeSafe(a, e) <==>
        (IdealNegative(x, e).Some? && Cong(NegativePower(ToI64(a), e), IdealNegative(x, e).value, a.width))
  {
    if a.width <= 64 { NarrowNegative(a, e); } else { WideNegative(a, e); }
  }

  lemma NarrowNegative(a: Value, e: int)
    requires Known(a) && a.width <= 64
    ensures var x := IntOf(a, a.signed);
      (x != 0 && (a.width == 64 && !a.signed ==> x != BASE - 1)) <==>
        (IdealNegative(x, e).Some? && Cong(NegativePower(ToI64(a), e), IdealNegative(x, e).value, a.width))
  {
    hide Bit, ToI64, Pow2;
    var x, w := IntOf(a, a.signed), a.width;
    BaseIsPow2();
    ToI64Value(a);
    CongFromMultiple(BASE - 1, -1, 1, 64);
    CongWeaken(BASE - 1, -1, 64, w);
    Pow2Mono(w, 64);
    if w < 64 { HalfIsPow2(); Pow2Mono(w, 63); }
    if w == 64 && !a.signed && x == BASE - 1 {
      SmallMod(1, Pow2(64));
      SmallMod(BASE - 1, Pow2(64));
      SmallMod(0, Pow2(64));
    }
  }

  /** Above 64 bits only the low word of the base is looked at. */
  lemma LowReading(a: Value)
    requires Known(a) && a.width > 64
    ensures ToI64(a) == AsI64(ToU64(a))
    ensures IntOf(a, a.signed) == 1 ==> ToU64(a) == 1
    ensures IntOf(a, a.signed) == -1 ==> ToU64(a) == BASE - 1
  {
    hide Bit, ToU64, Pow2, And64, Or64, Not64, Mask, Shl64, Low, ToNat, AsI64;
    LowWord(a);
    LowOfOne();
    LowOfOnes(a.width);
  }

  lemma LowOfOne()
    ensures Low(1, 64) == 1
  {
    OneBit(1);
    BaseIsPow2();
    SameBits(Low(1, 64), 1, 64);
  }

  lemma LowOfOnes(w: nat)
    requires w >= 64
    ensures Low(Pow2(w) - 1, 64) == BASE - 1
  {
    hide Bit, Low, Ones, Pow2;
    BaseIsPow2();
    var l := Low(Ones(w), 64);
    SameBits(l, Ones(64), 64);
  }

  lemma DistinctResidues(w: nat)
    requires w > 64
    ensures !Cong(0, 1, w) && !Cong(0, BASE - 1, w) && !Cong(1, BASE - 1, w)
    ensures !Cong(-1, 1, w) && !Cong(-1, BASE - 1, w)
  {
    hide Pow2;
    BaseIsPow2();
    Pow2Mono(64, w);
    SmallMod(0, Pow2(w));
    SmallMod(1, Pow2(w));
    SmallMod(BASE - 1, Pow2(w));
    DivUnique(-1, Pow2(w), -1, Pow2(w) - 1);
  }

  lemma WideNegative(a: Value, e: int)
    requires Known(a) && a.width > 64
    ensures var x, low := IntOf(a, a.signed), AsI64(ToU64(a));
      (x != 0 && ((low != 1 && low != -1) || x == 1 || (x == -1 && e % 2 == 0))) <==>
        (IdealNegative(x, e).Some? && Cong(NegativePower(ToI64(a), e), IdealNegative(x, e).value, a.width))
  {
    hide Bit, ToU64, ToI64, IntOf, Cong;
    LowReading(a);
    DistinctResidues(a.width);
    CongSym(a.width);
    Refl(0, a.width);
    Refl(1, a.width);
  }

  lemma CongSym(w: nat)
    ensures forall x: int, y: int :: Cong(x, y, w) <==> Cong(y, x, w)
  {}

  /** A 65-bit -1 to an odd negative power sets only 64 bits. */
  lemma {:induction false} NegativeCounterexample(a: Value)
    requires Known(a) && a.width == 65 && IntOf(a, a.signed) == -1
    ensures !Cong(NegativePower(ToI64(a), -3), IdealNegative(-1, -3).value, 65)
  {
    LowReading(a);
    NegativePowerExact(a, -3);
  }

  /* ---- shift amounts are read modulo 2^32 ---- */

  lemma {:induction false} AmountIsNarrowed(amount: Value)
    requires Known(amount)
    ensures M.ShiftAmount(amount) == ValPlane(amount) % M.U32
  {
    hide Pow2, RawWord, Low;
    LowWord(amount);
    Split(ValPlane(amount), 64);
    PowerOf32();
    Reduced(ValPlane(amount), ValPlane(amount), 64, 32);
  }

  lemma PowerOf32()
    ensures Pow2(32) == M.U32
  {
    BaseIsPow2();
    Pow2Add(32, 32);
    if Pow2(32) < M.U32 { MulMono(Pow2(32), Pow2(32), M.U32); }
    if Pow2(32) > M.U32 { MulMono(Pow2(32), M.U32, Pow2(32)); }
  }

  /** No bit of `v` survives a move by `n`: up past its top, or down past its bottom. */
  ghost predicate NothingMovesUp(v: Value, n: nat) {
    forall i: nat | i + n < v.width :: !M.VBit(v, i) && !M.XBit(v, i)
  }

  /** Every bit from `n` up is already the fill. */
  ghost predicate OnlyFillMovesDown(v: Value, n: nat, fill: LogicBit) {
    forall i: nat | n <= i < v.width :: M.VBit(v, i) == ValueBit(fill) && M.XBit(v, i) == UnknownBit(fill)
  }

  /** A left shift by `amount` is the mathematical one precisely on these inputs. */
  lemma {:induction false} ShiftLeftExact(v: Value, amount: nat, r: Value)
    requires Valid(v) && M.MovedUp(r, v, amount % M.U32)
    ensures M.MovedUp(r, v, amount) <==> amount < M.U32 || NothingMovesUp(v, amount % M.U32)
  {
    hide M.VBit, M.XBit, Valid, Pow2;
    var n := amount % M.U32;
    if amount >= M.U32 {
      assert v.width <= amount by { WidthSmall(v); }
      if M.MovedUp(r, v, amount) {
        forall i: nat | i + n < v.width ensures !M.VBit(v, i) && !M.XBit(v, i) {
          assert M.VBit(r, i + n) == M.VBit(v, (i + n) - n) && M.XBit(r, i + n) == M.XBit(v, (i + n) - n);
        }
      }
    }
  }

  /** Likewise a right shift, logical or arithmetic. */
  lemma {:induction false} ShiftRightExact(v: Value, amount: nat, fill: LogicBit, r: Value)
    requires Valid(v) && M.MovedDown(r, v, amount % M.U32, fill)
    ensures M.MovedDown(r, v, amount, fill) <==> amount < M.U32 || OnlyFillMovesDown(v, amount % M.U32, fill)
  {
    hide M.VBit, M.XBit, Valid, Pow2, ValueBit, UnknownBit;
    var n := amount % M.U32;
    if amount >= M.U32 {
      assert v.width <= amount by { WidthSmall(v); }
      if M.MovedDown(r, v, amount, fill) {
        forall i: nat | n <= i < v.width ensures M.VBit(v, i) == ValueBit(fill) && M.XBit(v, i) == UnknownBit(fill) {
          assert M.VBit(r, i - n) == M.VBit(v, (i - n) + n) && M.XBit(r, i - n) == M.XBit(v, (i - n) + n);
        }
      }
    }
  }

  lemma WidthSmall(v: Value)
    requires Valid(v)
    ensures v.width < M.U32
  {}

  function Small(n: Word, width: nat): Value { Value(Inline(n, 0), width, false) }

  lemma SmallIs(n: Word, width: nat)
    requires width <= 64 && n < Pow2(width)
    ensures var v := Small(n, width);
      Known(v) && IntOf(v, false) == n && ToU64(v) == n && ToI64(v) == AsI64(n)
  {
    hide RawWord, Pow2, And64, Or64, Not64, Mask, Shl64;
    KnownWord0(Small(n, width));
    SmallMod(0, Pow2(width));
  }

  /** `33'h1_0000_0000` as a shift amount is read as 0. */
  lemma LongAmount()
    ensures var b := Small(M.U32, 33);
      Known(b) && ValPlane(b) == M.U32 && M.ShiftAmount(b) == 0
  {
    assert Pow2(1) == 2;
    hide Pow2, RawWord;
    PowerOf32();
    Pow2Add(1, 32);
    SmallIs(M.U32, 33);
  }

  /** `8'd1` shifted by it either way stays 1 where 0 is due. */
  lemma {:induction false} LongShiftCounterexample(l: Value, r: Value)
    requires var v, n := Small(1, 8), M.ShiftAmount(Small(M.U32, 33)); M.MovedUp(l, v, n) && M.MovedDown(r, v, n, Zero)
    ensures !M.MovedUp(l, Small(1, 8), M.U32) && !M.MovedDown(r, Small(1, 8), M.U32, Zero)
  {
    var v := Small(1, 8);
    assert Pow2(8) == 256 && Bit(1, 0);
    hide Pow2, RawWord, M.MovedUp, M.MovedDown;
    LongAmount();
    SmallIs(1, 8);
    M.InlineBits(v);
    ShiftLeftExact(v, M.U32, l);
    ShiftRightExact(v, M.U32, Zero, r);
    assert M.VBit(v, 0);
  }

  /** `8'sh81 >>> 33'h1_0000_0000` stays `8'h81` where all ones are due. */
  lemma {:induction false} LongArithShiftCounterexample(r: Value)
    requires var v := Small(0x81, 8).(signed := true);
      M.MovedDown(r, v, M.ShiftAmount(Small(M.U32, 33)), M.GetBit(v, 7))
    ensures var v := Small(0x81, 8).(signed := true);
      M.GetBit(v, 7) == One && !M.MovedDown(r, v, M.U32, M.GetBit(v, 7))
  {
    var v := Small(0x81, 8).(signed := true);
    assert Pow2(8) == 256 && Bit(0x81, 7) && !Bit(0x81, 1);
    BitsOfZero();
    hide Pow2, RawWord, Bit, M.MovedDown;
    LongAmount();
    SmallIs(0x81, 8);
    M.InlineBits(v);
    ShiftRightExact(v, M.U32, One, r);
    assert M.VBit(v, 7) && !M.XBit(v, 7) && !M.VBit(v, 1);
  }
}
