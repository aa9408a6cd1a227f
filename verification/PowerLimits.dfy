module PowerLimits {
  // When `a ** b` is the integer power, over every pair of known operands.

  import opened Names
  import opened WordBits
  import opened WordVec
  import opened Planes
  import opened Congruence
  import opened Values
  import opened ValueArith
  import opened ValuePower
  import opened HostLimits

  /** The power the operator is for, `None` being unknown. */
  ghost function IdealPower(x: int, e: int): Option<int> {
    if e >= 0 then Some(Exp(x, e)) else IdealNegative(x, e)
  }

  /** The exponent the loops run to: the low word of the operand, capped at widths up to 128. */
  ghost function UsedExponent(a: Value, b: Value): nat {
    if a.width > 128 then ToU64(b) else Min(ToU64(b), CAP)
  }

  /** The inputs on which the code is right, by the sign it reads and the sign the exponent has. */
  ghost predicate PowerSafe(a: Value, b: Value) {
    var x, e, n, w := IntOf(a, a.signed), IntOf(b, b.signed), UsedExponent(a, b), a.width;
    if b.signed && ToI64(b) < 0 then
      (if e < 0 then NegativeSafe(a, e) else ReadNegativeSafe(x, ToI64(a), e, w))
    else
      (if e < 0 then ReadPositiveSafe(x, n, e, w) else SamePower(x, n, e, w))
  }

  /** The result is the ideal power modulo `2^width` on precisely those inputs. */
  lemma {:induction false} PowerExact(v: Value, a: Value, b: Value)
    requires Known(a) && Known(b) && Powered(v, a, b)
    ensures var ideal := IdealPower(IntOf(a, a.signed), IntOf(b, b.signed));
      (ideal.Some? && Holds(v, ideal.value, a.width, a.signed && b.signed)) <==> PowerSafe(a, b)
  {
    hide Cong, Exp, IntOf, ToI64, ToU64, Pow2, NegativeSafe, ReadNegativeSafe, ReadPositiveSafe, SamePower, NegativePower, IdealNegative;
    var x, e, n, w := IntOf(a, a.signed), IntOf(b, b.signed), UsedExponent(a, b), a.width;
    ExponentRead(b);
    if b.signed && ToI64(b) < 0 {
      SameParityPower(ToI64(a), ToI64(b), e);
      if e < 0 {
        NegativePowerExact(a, e);
      } else {
        BaseRead(a);
        EmptyIsZero(a);
        ReadNegativeExact(x, ToI64(a), e, w);
      }
      HoldsCong(v, a, b, NegativePower(ToI64(a), e));
    } else {
      if e < 0 { ReadPositiveExact(x, n, e, w); } else { SamePowerExact(x, n, e, w); }
      HoldsCong(v, a, b, Exp(x, n));
    }
  }

  lemma EmptyIsZero(a: Value)
    requires Known(a)
    ensures a.width == 0 ==> IntOf(a, a.signed) == 0
  {}

  lemma HoldsCong(v: Value, a: Value, b: Value, y: int)
    requires Holds(v, y, a.width, a.signed && b.signed)
    ensures forall z: int :: Holds(v, z, a.width, a.signed && b.signed) <==> Cong(y, z, a.width)
  {}

  lemma SameParityPower(base: int, d: int, e: int)
    requires d % 2 == e % 2
    ensures NegativePower(base, d) == NegativePower(base, e)
  {}

  /* ---- powers that vanish ---- */

  /** How often 2 divides `x`. */
  function Twos(x: int): nat
    requires x != 0
    decreases if x < 0 then -x else x
  {
    if x % 2 == 1 then 0 else 1 + Twos(x / 2)
  }

  lemma {:induction false} TwosOfProduct(x: int, y: int)
    requires x != 0 && y != 0
    ensures x * y != 0 && Twos(x * y) == Twos(x) + Twos(y)
    decreases if x < 0 then -x else x
  {
    if x % 2 == 0 {
      var h := x / 2;
      TwosOfProduct(h, y);
      HalfTimes(x, h, y);
      TwosOfDouble(h * y);
    } else {
      TwosOfOddMultiple(x, y);
    }
  }

  lemma HalfTimes(x: int, h: int, y: int)
    requires x == 2 * h
    ensures x * y == 2 * (h * y)
  {}

  lemma TwosOfDouble(z: int)
    requires z != 0
    ensures Twos(2 * z) == 1 + Twos(z)
  {}

  lemma {:induction false} TwosOfOddMultiple(u: int, y: int)
    requires u % 2 == 1 && y != 0
    ensures u * y != 0 && Twos(u * y) == Twos(y)
    decreases if y < 0 then -y else y
  {
    OddTimesOdd(u, y);
    if y % 2 == 0 {
      var h := y / 2;
      TwosOfOddMultiple(u, h);
      assert u * y == 2 * (u * h) by { assert y == 2 * h; }
      TwosOfDouble(u * h);
    }
  }

  lemma {:induction false} TwosOfPower(x: int, n: nat)
    requires x != 0
    ensures Exp(x, n) != 0 && Twos(Exp(x, n)) == n * Twos(x)
  {
    if n > 0 {
      TwosOfPower(x, n - 1);
      TwosOfProduct(x, Exp(x, n - 1));
      assert n * Twos(x) == Twos(x) + (n - 1) * Twos(x);
    }
  }

  lemma {:induction false} TwosDivide(y: int, w: nat)
    requires y != 0
    ensures Div2(y, w) <==> Twos(y) >= w
    decreases w
  {
    if w > 0 {
      if y % 2 == 0 {
        TwosDivide(y / 2, w - 1);
        Div2Half(y / 2, w);
      } else if Div2(y, w) {
        EvenWhenDivisible(y, w);
      }
    }
  }

  /** `x^n` is 0 modulo `2^w`. */
  ghost predicate Vanishes(x: int, n: nat, w: nat) {
    w == 0 || (n > 0 && (x == 0 || n * Twos(x) >= w))
  }

  lemma {:induction false} VanishesExact(x: int, n: nat, w: nat)
    ensures Div2(Exp(x, n), w) <==> Vanishes(x, n, w)
  {
    if x != 0 {
      hide Div2;
      TwosOfPower(x, n);
      TwosDivide(Exp(x, n), w);
    } else if n == 0 {
      Pow2Mono(0, w);
      if w > 0 { SmallMod(1, Pow2(w)); }
    } else {
      SmallMod(0, Pow2(w));
    }
  }

  /* ---- a smaller exponent used for a larger one ---- */

  /** The exponent is read in full, or the base does not tell the two exponents apart. */
  ghost predicate SamePower(x: int, n: nat, e: nat, w: nat) {
    n >= e || if x % 2 == 0 then Vanishes(x, n, w) else UnitPower(x, e - n, w)
  }

  lemma {:induction false} SamePowerExact(x: int, n: nat, e: nat, w: nat)
    requires n <= e
    ensures Cong(Exp(x, n), Exp(x, e), w) <==> SamePower(x, n, e, w)
  {
    hide Div2, Pow2, UnitPower, Vanishes, Exp, Cong;
    Refl(Exp(x, n), w);
    if n < e {
      var u, v := Exp(x, n), Exp(x, e - n);
      ExpAdd(x, n, e - n);
      Div2Cong(u, u * v, w);
      assert u - u * v == (1 - v) * u;
      if x % 2 == 0 {
        EvenBase(x, e - n);
        OddCancel(1 - v, u, w);
        VanishesExact(x, n, w);
      } else {
        OddPower(x, n);
        OddCancel(u, 1 - v, w);
        assert (1 - v) * u == u * (1 - v);
        NegatedDiv2(v - 1, w);
        Div2Cong(v, 1, w);
        LiftedExponent(x, e - n, w);
      }
    }
  }

  lemma EvenBase(x: int, k: nat)
    requires x % 2 == 0 && k > 0
    ensures Exp(x, k) % 2 == 0 && (1 - Exp(x, k)) % 2 == 1
  {
    var h, y := x / 2, Exp(x, k - 1);
    assert x * y == 2 * (h * y) by { assert x == 2 * h; }
  }

  /* ---- a negative exponent read as a positive one ---- */

  ghost predicate ReadPositiveSafe(x: int, n: nat, e: int, w: nat) {
    if x == 0 then false
    else if x == 1 then true
    else if x == -1 then n % 2 == e % 2 || w <= 1
    else Vanishes(x, n, w)
  }

  lemma {:induction false} ReadPositiveExact(x: int, n: nat, e: int, w: nat)
    requires e < 0
    ensures ReadPositiveSafe(x, n, e, w) <==>
      (IdealNegative(x, e).Some? && Cong(Exp(x, n), IdealNegative(x, e).value, w))
  {
    hide Cong, Exp, Vanishes, Pow2;
    if x == 1 || x == -1 {
      UnitBase(x, n);
      MinusOneIsOne(w);
      Refl(Exp(x, n), w);
    } else if x != 0 {
      VanishesExact(x, n, w);
      Div2Cong(Exp(x, n), 0, w);
    }
  }

  lemma {:induction false} UnitBase(x: int, n: nat)
    requires x == 1 || x == -1
    ensures Exp(x, n) == if n % 2 == 0 then 1 else x
  {
    if n > 0 { UnitBase(x, n - 1); }
  }

  lemma MinusOneIsOne(w: nat)
    ensures Cong(1, -1, w) <==> w <= 1
    ensures Cong(-1, 1, w) <==> w <= 1
  {
    if w > 1 {
      Pow2Mono(2, w);
      assert Pow2(2) == 4;
      SmallMod(1, Pow2(w));
      DivUnique(-1, Pow2(w), -1, Pow2(w) - 1);
    }
  }

  /* ---- a positive exponent read as a negative one ---- */

  /** `low` is the base's low word as a signed integer. */
  ghost predicate ReadNegativeSafe(x: int, low: int, e: nat, w: nat) {
    x % 2 == 0 ||
    if low == 1 || (low == -1 && e % 2 == 0) then UnitPower(x, e, w)
    else low == -1 && (w <= 64 || (x % Pow2(65) == BASE - 1 && e % Pow2(w - 64) == MinusExponent(x, w)))
  }

  /** The one exponent modulo `2^(w-64)` at which a power of `x` is `2^64 - 1`, found a bit at a time. */
  ghost function MinusExponent(x: int, w: nat): nat
    requires w >= 65
  {
    if w == 65 then 1 else
      var r := MinusExponent(x, w - 1);
      if Cong(Exp(x, r), BASE - 1, w) then r else r + Pow2(w - 65)
  }

  lemma {:induction false} ReadNegativeExact(x: int, low: int, e: nat, w: nat)
    requires Cong(x, low, 64) && e >= w && (w == 0 ==> x == 0)
    ensures ReadNegativeSafe(x, low, e, w) <==> Cong(NegativePower(low, e), Exp(x, e), w)
  {
    hide Cong, Exp, Pow2, UnitPower, Div2, MinusExponent;
    SameParity(x, low, 64);
    CongSym(w);
    if x % 2 == 0 {
      EvenPower(x, e, w);
      Div2Cong(Exp(x, e), 0, w);
    } else if low == 1 || (low == -1 && e % 2 == 0) {
      LiftedExponent(x, e, w);
    } else {
      OddPower(x, e);
      if low != -1 {
        if Cong(0, Exp(x, e), w) { SameParity(0, Exp(x, e), w); }
      } else if w <= 64 {
        MinusOnePower(x, e, 64);
        BaseIsPow2();
        CongFromMultiple(BASE - 1, -1, 1, 64);
        CongSym(64);
        CongTrans(Exp(x, e), -1, BASE - 1, 64);
        CongWeaken(Exp(x, e), BASE - 1, 64, w);
      } else {
        LowAllOnes(x, e, w);
      }
    }
  }

  lemma SameParity(x: int, y: int, w: nat)
    requires Cong(x, y, w) && w > 0
    ensures x % 2 == y % 2
  {
    CongWeaken(x, y, w, 1);
  }

  lemma MinusOnePower(x: int, e: nat, w: nat)
    requires Cong(x, -1, w) && e % 2 == 1
    ensures Cong(Exp(x, e), -1, w)
  {
    CongExp(x, -1, e, w);
    UnitBase(-1, e);
  }

  /** A wide base whose low word is all ones, to an odd power. */
  lemma {:induction false} LowAllOnes(x: int, e: nat, w: nat)
    requires Cong(x, -1, 64) && e % 2 == 1 && w > 64
    ensures Cong(Exp(x, e), BASE - 1, w) <==>
      x % Pow2(65) == BASE - 1 && e % Pow2(w - 64) == MinusExponent(x, w)
  {
    hide Cong, Exp, Pow2, UnitPower, Div2, MinusExponent;
    if x % Pow2(65) == BASE - 1 {
      MinusExponentExact(x, e, w);
    } else {
      NextBitOne(x);
      MinusOnePower(x, e, 65);
      DistinctResidues(65);
      if Cong(Exp(x, e), BASE - 1, w) {
        CongWeaken(Exp(x, e), BASE - 1, w, 65);
        CongSym(65);
        CongTrans(-1, Exp(x, e), BASE - 1, 65);
      }
    }
  }

  lemma NextBitOne(x: int)
    requires Cong(x, -1, 64) && x % Pow2(65) != BASE - 1
    ensures Cong(x, -1, 65)
  {
    BaseIsPow2();
    var k := CongWitness(x, -1, 64);
    if k % 2 == 0 {
      CongFromMultiple(x, -1, k / 2, 65);
    } else {
      CongFromMultiple(x, BASE - 1, k / 2, 65);
      SmallMod(BASE - 1, Pow2(65));
    }
  }

  /** `x^k = 1` modulo `2^w` exactly when `2^(w-64)` divides `k`, for such `x`. */
  lemma {:induction false} UnitIff(x: int, k: nat, w: nat)
    requires x % Pow2(65) == BASE - 1 && w >= 65
    ensures UnitPower(x, k, w) <==> Div2(k, w - 64)
  {
    hide Div2, Pow2;
    var o := MinusOneFactors(x);
    if k % 2 == 1 {
      if Div2(k, w - 64) { EvenWhenDivisible(k, w - 64); }
      if Div2(x - 1, w) {
        Div2Half((x - 1) / 2, w);
        EvenWhenDivisible((x - 1) / 2, w - 1);
      }
    } else {
      var h := k / 2;
      assert (x * x - 1) * h == o * (Pow2(65) * h) by { assert x * x - 1 == o * Pow2(65); Assoc(o, Pow2(65), h); }
      OddCancel(o, Pow2(65) * h, w);
      Div2Scale(h, 65, w - 65);
      Div2Half(h, w - 64);
    }
  }

  lemma {:induction false} Div2Scale(y: int, j: nat, w: nat)
    ensures Div2(Pow2(j) * y, w + j) <==> Div2(y, w)
  {
    if j > 0 {
      Div2Scale(y, j - 1, w);
      Div2Half(Pow2(j - 1) * y, w + j);
      Assoc(2, Pow2(j - 1), y);
    }
  }

  /** `x^2 - 1` has exactly 65 factors of two. */
  lemma MinusOneFactors(x: int) returns (o: int)
    requires x % Pow2(65) == BASE - 1
    ensures x * x - 1 == o * Pow2(65) && o % 2 == 1
    ensures x % 2 == 1 && ((x - 1) / 2) % 2 == 1
  {
    assert Pow2(1) == 2;
    hide Pow2;
    BaseIsPow2();
    Pow2Add(1, 64);
    assert Pow2(65) == 4 * HALF;
    var q := x / Pow2(65);
    o := (2 * q + 1) * ((2 * q + 1) * HALF - 1);
    FactorsAt(x, q, HALF);
  }

  lemma FactorsAt(x: int, q: int, h: int)
    requires x == 4 * h * q + (2 * h - 1) && h % 2 == 0
    ensures var t := 2 * q + 1; x * x - 1 == (t * (t * h - 1)) * (4 * h) && (t * (t * h - 1)) % 2 == 1
    ensures x % 2 == 1 && ((x - 1) / 2) % 2 == 1
  {
    var t := 2 * q + 1;
    var y := t * h;
    OddHalves(q, h);
    EvenMultipleOf(t, h);
    OneBelow(x, y);
    assert x * x - 1 == (t * (y - 1)) * (4 * h) by { SquareLessOne(t, h); }
    OddTimesOdd(t, y - 1);
  }

  lemma OddHalves(q: int, h: int)
    ensures (2 * q + 1) * (2 * h) == 4 * h * q + 2 * h == 2 * ((2 * q + 1) * h)
  {}

  lemma EvenMultipleOf(t: int, h: int)
    requires h % 2 == 0
    ensures (t * h) % 2 == 0
  {
    var k := h / 2;
    assert t * h == 2 * (t * k) by { assert h == 2 * k; }
  }

  lemma OneBelow(x: int, y: int)
    requires x == 2 * y - 1 && y % 2 == 0
    ensures x % 2 == 1 && ((x - 1) / 2) % 2 == 1 && (y - 1) % 2 == 1
  {}

  lemma SquareLessOne(t: int, h: int)
    ensures (t * (2 * h) - 1) * (t * (2 * h) - 1) - 1 == (t * (t * h - 1)) * (4 * h)
  {
    var y := t * h;
    assert t * (2 * h) == 2 * y;
    assert (2 * y - 1) * (2 * y - 1) - 1 == 4 * y * (y - 1);
    assert (t * (y - 1)) * (4 * h) == 4 * (t * h) * (y - 1);
  }

  lemma {:induction false} MinusExponentFits(x: int, w: nat)
    requires x % Pow2(65) == BASE - 1 && w >= 65
    ensures MinusExponent(x, w) < Pow2(w - 64) && Cong(Exp(x, MinusExponent(x, w)), BASE - 1, w)
    decreases w
  {
    if w == 65 {
      BaseIsPow2();
      SmallMod(BASE - 1, Pow2(65));
      assert Exp(x, 1) == x * Exp(x, 0) == x;
      assert Pow2(1) == 2;
    } else {
      MinusExponentFits(x, w - 1);
      var r, p := MinusExponent(x, w - 1), Pow2(w - 65);
      assert Pow2(w - 64) == 2 * p;
      if !Cong(Exp(x, r), BASE - 1, w) { NextBit(x, r, w); }
    }
  }

  /** A residue wrong in bit `w - 1` only is put right by `2^(w-65)` more factors. */
  lemma NextBit(x: int, r: nat, w: nat)
    requires x % Pow2(65) == BASE - 1 && w >= 66
    requires Cong(Exp(x, r), BASE - 1, w - 1) && !Cong(Exp(x, r), BASE - 1, w)
    ensures Cong(Exp(x, r + Pow2(w - 65)), BASE - 1, w)
  {
    hide Cong, Exp, Pow2, UnitPower, Div2;
    var p := Pow2(w - 65);
    var u, v := Exp(x, r), Exp(x, p);
    ExpAdd(x, r, p);
    var o := MinusOneFactors(x);
    OddPower(x, r);
    JustDivides(w - 65);
    StepFactor(x, u, p, w - 1);
    StepFactor(x, u, p, w);
    Div2Cong(u, BASE - 1, w - 1);
    Div2Cong(u, BASE - 1, w);
    HalfOdds(u * (v - 1), u - (BASE - 1), w);
    assert u * v - (BASE - 1) == u * (v - 1) + (u - (BASE - 1));
    Div2Cong(u * v, BASE - 1, w);
  }

  lemma StepFactor(x: int, u: int, k: nat, m: nat)
    requires x % Pow2(65) == BASE - 1 && m >= 65 && x % 2 == 1 && u % 2 == 1
    ensures Div2(u * (Exp(x, k) - 1), m) <==> Div2(k, m - 64)
  {
    hide Cong, Exp, Pow2, UnitPower, Div2;
    UnitIff(x, k, m);
    LiftedExponent(x, k, m);
    Div2Cong(Exp(x, k), 1, m);
    OddCancel(u, Exp(x, k) - 1, m);
  }

  lemma JustDivides(j: nat)
    ensures Div2(Pow2(j), j) && !Div2(Pow2(j), j + 1)
  {
    DivUnique(Pow2(j), Pow2(j), 1, 0);
    SmallMod(Pow2(j), Pow2(j + 1));
  }

  lemma HalfOdds(y: int, z: int, w: nat)
    requires w > 0 && Div2(y, w - 1) && Div2(z, w - 1) && !Div2(y, w) && !Div2(z, w)
    ensures Div2(y + z, w)
  {
    hide Div2, Pow2;
    OddMultiple(y, w);
    OddMultiple(z, w);
    var p := Pow2(w - 1);
    Distribute(p, y / p, z / p);
    EvenMultiple(y + z, y / p + z / p, w);
  }

  lemma EvenMultiple(y: int, k: int, w: nat)
    requires w > 0 && y == Pow2(w - 1) * k && k % 2 == 0
    ensures Div2(y, w)
  {
    var p := Pow2(w - 1);
    assert y == (2 * p) * (k / 2) by { assert k == 2 * (k / 2); }
    DivUnique(y, 2 * p, k / 2, 0);
  }

  lemma OddMultiple(y: int, w: nat)
    requires w > 0 && Div2(y, w - 1) && !Div2(y, w)
    ensures y == Pow2(w - 1) * (y / Pow2(w - 1)) && (y / Pow2(w - 1)) % 2 == 1
  {
    hide Pow2;
    var k := y / Pow2(w - 1);
    if k % 2 == 0 { EvenMultiple(y, k, w); }
  }

  lemma {:induction false} MinusExponentExact(x: int, e: nat, w: nat)
    requires x % Pow2(65) == BASE - 1 && w >= 65
    ensures Cong(Exp(x, e), BASE - 1, w) <==> e % Pow2(w - 64) == MinusExponent(x, w)
  {
    hide Cong, Exp, Pow2, UnitPower, Div2, MinusExponent, Vanishes;
    MinusExponentFits(x, w);
    var r := MinusExponent(x, w);
    var lo, hi := Min(e, r), if e < r then r else e;
    var o := MinusOneFactors(x);
    SamePowerExact(x, lo, hi, w);
    UnitIff(x, hi - lo, w);
    SameResidue(Exp(x, e), Exp(x, r), BASE - 1, w);
    Div2Cong(hi, lo, w - 64);
    ResidueIs(e, r, w - 64);
    CongSym(w - 64);
    CongSym(w);
    Refl(e, w - 64);
  }

  lemma SameResidue(y: int, z: int, t: int, w: nat)
    requires Cong(z, t, w)
    ensures Cong(y, t, w) <==> Cong(y, z, w)
  {}

  lemma ResidueIs(e: nat, r: nat, m: nat)
    requires r < Pow2(m)
    ensures e % Pow2(m) == r <==> Cong(e, r, m)
  {
    SmallMod(r, Pow2(m));
  }

  /* ---- how the operands are read ---- */

  /** What the low word says of the exponent: its parity, and no more than its size. */
  lemma ExponentRead(b: Value)
    requires Known(b)
    ensures var e := IntOf(b, b.signed);
      && (b.signed ==> ToI64(b) % 2 == e % 2)
      && (e >= 0 ==> ToU64(b) <= e)
      && (b.signed && ToI64(b) < 0 && e >= 0 ==> e >= HALF)
  {
    hide Bit, Pow2, RawWord;
    BaseRead(b);
    LowWord(b);
    SameParity(IntOf(b, b.signed), ToI64(b), 64);
    if b.width <= 64 { ToI64Value(b); }
    else { hide And64, Or64, Not64, Mask, Shl64, Low; }
  }

  /** The signed low word agrees with the integer modulo `2^64`. */
  lemma BaseRead(a: Value)
    requires Known(a)
    ensures Cong(IntOf(a, a.signed), ToI64(a), 64)
  {
    hide Bit, RawWord, Pow2, Low, ToU64;
    BaseIsPow2();
    var n, x := ValPlane(a), IntOf(a, a.signed);
    if a.width <= 64 {
      ToI64Value(a);
      if ToI64(a) != x { CongFromMultiple(x, ToI64(a), 1, 64); }
    } else {
      LowWord(a);
      Split(n, 64);
      Idempotent(n, 64);
      CongSym(64);
      AsI64Cong(ToU64(a));
      CongTrans(n, ToU64(a), ToI64(a), 64);
      if x != n {
        CongFromMultiple(x, n, -1, a.width);
        CongWeaken(x, n, a.width, 64);
        CongTrans(x, n, ToI64(a), 64);
      }
    }
  }

  lemma AsI64Cong(n: Word)
    ensures Cong(n, AsI64(n), 64)
  {
    BaseIsPow2();
    if n >= HALF { CongFromMultiple(n, AsI64(n), 1, 64); }
  }

  /* ---- inputs on which the code is wrong ---- */

  /** A 65-bit value. */
  function Sixtyfive(low: Word, top: Word, signed: bool): Value { Value(Wide([low, top], [0, 0]), 65, signed) }

  lemma SixtyfivePlane(low: Word, top: Word, signed: bool)
    requires top <= 1
    ensures var v := Sixtyfive(low, top, signed);
      Known(v) && ValPlane(v) == low + top * BASE && Pow2(64) == BASE && Pow2(65) == 2 * BASE
  {
    hide ToNat;
    assert Pow2(1) == 2;
    hide Pow2;
    TwoWords([low, top]);
    TwoWords([0, 0]);
    BaseIsPow2();
    Pow2Add(1, 64);
  }

  lemma SixtyfiveIs(low: Word, top: Word, signed: bool)
    requires top <= 1
    ensures var v := Sixtyfive(low, top, signed);
      && Known(v) && ToU64(v) == low && ToI64(v) == AsI64(low)
      && IntOf(v, signed) == low + if top == 0 then 0 else if signed then 0 - BASE else BASE
  {
    hide Bit, And64, Not64, Pow2, RawWord, ToNat, ValPlane, XzPlane, Low;
    var v, n := Sixtyfive(low, top, signed), low + top * BASE;
    SixtyfivePlane(low, top, signed);
    LowWord(v);
    Split(n, 64);
    DivUnique(n, BASE, top, low);
    HalfIsTopBit(n, 65);
  }

  lemma TwoWords(ws: seq<Word>)
    requires |ws| == 2
    ensures ToNat(ws) == ws[0] + ws[1] * BASE
  {
    assert Val(ws, 2) == Val(ws, 1) + Scale(ws[1], 1) && Val(ws, 1) == Val(ws, 0) + Scale(ws[0], 0);
    assert Scale(ws[1], 1) == BASE * Scale(ws[1], 0);
  }

  /** `8'd2` to the 65-bit power `2^64`: the exponent is read as 0 and the result is 1. */
  lemma {:induction false} LongExponent(v: Value)
    requires Powered(v, Small(2, 8), Sixtyfive(0, 1, false))
    ensures !Holds(v, Exp(2, BASE), 8, false) && Holds(v, 1, 8, false)
  {
    assert Exp(2, 0) == 1;
    assert Pow2(8) == 256;
    hide Exp, ToU64, ToI64, IntOf, Pow2, Holds, Known, NegativeSafe;
    SixtyfiveIs(0, 1, false);
    SmallIs(2, 8);
    PowerExact(v, Small(2, 8), Sixtyfive(0, 1, false));
  }

  /** `8'd2` to the signed 65-bit power `-2^64`: read as 0, and 1 where 0 is due. */
  lemma {:induction false} LongNegativeExponent(v: Value)
    requires Powered(v, Small(2, 8), Sixtyfive(0, 1, true))
    ensures IdealPower(2, 0 - BASE) == Some(0) && !Holds(v, 0, 8, false) && Holds(v, 1, 8, false)
  {
    assert Exp(2, 0) == 1;
    assert Pow2(8) == 256;
    hide Exp, ToU64, ToI64, IntOf, Pow2, Holds, Known, NegativeSafe;
    SixtyfiveIs(0, 1, true);
    SmallIs(2, 8);
    PowerExact(v, Small(2, 8), Sixtyfive(0, 1, true));
  }

  /** `8'd3` to the signed 65-bit power `2^63`: read as negative, and 0 where 1 is due. */
  lemma {:induction false} LongPositiveExponent(v: Value)
    requires Powered(v, Small(3, 8), Sixtyfive(HALF, 0, true))
    ensures !Holds(v, Exp(3, HALF), 8, false) && Holds(v, 0, 8, false)
  {
    assert Pow2(8) == 256;
    hide Exp, ToU64, ToI64, IntOf, Pow2, Holds, Known, NegativeSafe;
    SixtyfiveIs(HALF, 0, true);
    SmallIs(3, 8);
    PowerExact(v, Small(3, 8), Sixtyfive(HALF, 0, true));
  }

  /** `8'd3` to the power `13'd4097`: the cap stops one product short. */
  lemma {:induction false} CappedExponent(v: Value)
    requires Powered(v, Small(3, 8), Small(CAP + 1, 13))
    ensures !Holds(v, Exp(3, CAP + 1), 8, false)
  {
    assert Pow2(8) == 256;
    assert Pow2(5) == 32;
    hide Exp, ToU64, ToI64, IntOf, Pow2, Holds, Known, NegativeSafe;
    Pow2Add(8, 5);
    SmallIs(3, 8);
    SmallIs(CAP + 1, 13);
    PowerExact(v, Small(3, 8), Small(CAP + 1, 13));
  }
}
