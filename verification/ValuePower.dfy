/** The power operator: square-and-multiply above 128 bits, a capped product below. */
module ValuePower {
  import opened WordBits
  import opened WordVec
  import opened Planes
  import opened Congruence
  import opened Values
  import opened ValueArith

  const CAP: nat := 4096

  ghost function Exp(b: int, n: nat): int {
    if n == 0 then 1 else b * Exp(b, n - 1)
  }

  lemma {:induction false} ExpAdd(b: int, m: nat, n: nat)
    ensures Exp(b, m + n) == Exp(b, m) * Exp(b, n)
  {
    if m > 0 {
      ExpAdd(b, m - 1, n);
      Assoc(b, Exp(b, m - 1), Exp(b, n));
    }
  }

  lemma {:induction false} ExpSquare(b: int, k: nat)
    ensures Exp(b * b, k) == Exp(b, 2 * k)
  {
    if k > 0 {
      ExpSquare(b, k - 1);
      Assoc(b, b, Exp(b, 2 * k - 2));
      assert Exp(b, 2 * k) == b * Exp(b, 2 * k - 1) == b * (b * Exp(b, 2 * k - 2));
    }
  }

  lemma {:induction false} CongExp(a: int, b: int, n: nat, w: nat)
    requires Cong(a, b, w)
    ensures Cong(Exp(a, n), Exp(b, n), w)
  {
    if n > 0 {
      CongExp(a, b, n - 1, w);
      CongMul(a, b, Exp(a, n - 1), Exp(b, n - 1), w);
    }
  }

  /** One product of word vectors, modulo `2^w`. */
  method MulMod(x: seq<Word>, y: seq<Word>, ghost w: nat) returns (z: seq<Word>)
    requires |x| == |y| && w <= 64 * |x|
    ensures |z| == |x| && Cong(ToNat(z), ToNat(x) * ToNat(y), w)
  {
    hide ToNat, Radix, Pow2;
    z := WordsMul(x, y);
    RadixIsPow2(|x|);
    Idempotent(ToNat(x) * ToNat(y), 64 * |x|);
    CongWeaken(ToNat(z), ToNat(x) * ToNat(y), 64 * |x|, w);
  }

  /** Square-and-multiply modulo `2^(64 * len)`. */
  method SquareMultiply(base0: seq<Word>, exp: nat, ghost w: nat) returns (acc: seq<Word>)
    requires |base0| > 0 && w <= 64 * |base0|
    ensures |acc| == |base0| && Cong(ToNat(acc), Exp(ToNat(base0), exp), w)
  {
    hide ToNat, Cong, Pow2;
    var base, e := base0, exp;
    acc := Zeros(|base|)[0 := 1];
    OneValue(|base|);
    ghost var goal := Exp(ToNat(base0), exp);
    Refl(goal, w);
    while e != 0
      invariant |acc| == |base| == |base0|
      invariant Cong(ToNat(acc) * Exp(ToNat(base), e), goal, w)
    {
      ghost var a0, b0, e0 := ToNat(acc), ToNat(base), e;
      if e % 2 == 1 { acc := MulMod(acc, base, w); }
      e := e / 2;
      if e != 0 { base := MulMod(base, base, w); }
      PowerStep(a0, b0, e0, ToNat(acc), ToNat(base), goal, w);
    }
  }

  lemma Refl(x: int, w: nat)
    ensures Cong(x, x, w)
  {}

  lemma OneValue(n: nat)
    requires n > 0
    ensures ToNat(Zeros(n)[0 := 1]) == 1
  {
    ValZeros(Zeros(n), n);
    ValUpdate(Zeros(n), n, 0, 1);
  }

  /** Halving the exponent: `a b^e = (a b?) (b b)^(e/2)`. */
  lemma PowerStep(a: int, b: int, e: nat, a': int, b': int, goal: int, w: nat)
    requires e > 0 && Cong(a * Exp(b, e), goal, w)
    requires if e % 2 == 1 then Cong(a', a * b, w) else a' == a
    requires e / 2 != 0 ==> Cong(b', b * b, w)
    ensures Cong(a' * Exp(b', e / 2), goal, w)
  {
    hide Pow2, Cong;
    var k := e / 2;
    ExpSquare(b, k);
    if k != 0 { CongExp(b', b * b, k, w); } else { Refl(1, w); }
    if e % 2 == 1 {
      CongMul(a', a * b, Exp(b', k), Exp(b, 2 * k), w);
      assert Exp(b, e) == b * Exp(b, 2 * k);
      Assoc(a, b, Exp(b, 2 * k));
    } else {
      Refl(a, w);
      CongMul(a, a, Exp(b', k), Exp(b, 2 * k), w);
    }
    CongTrans(a' * Exp(b', k), a * Exp(b, e), goal, w);
  }

  lemma CongTrans(x: int, y: int, z: int, w: nat)
    requires Cong(x, y, w) && Cong(y, z, w)
    ensures Cong(x, z, w)
  {}

  /** The `u128` loop: at most `n` products, left early at zero. */
  method CappedProduct(base: nat, n: nat) returns (r: nat)
    requires base < BASE * BASE
    ensures r < BASE * BASE && Cong(r, Exp(base, n), 128)
  {
    hide Cong, Pow2;
    BaseSquared();
    r := 1;
    Refl(1, 128);
    for i := 0 to n
      invariant r < BASE * BASE && Cong(r, Exp(base, i), 128)
    {
      CongMul(base, base, r, Exp(base, i), 128) by { Refl(base, 128); }
      Idempotent(r * base, 128);
      CongTrans(r * base % (BASE * BASE), r * base, Exp(base, i + 1), 128);
      r := r * base % (BASE * BASE);
      if r == 0 {
        ZeroStays(base, i + 1, n);
        break;
      }
    }
  }

  /** Once a power is 0 modulo `2^128`, so are all later ones. */
  lemma ZeroStays(b: int, i: nat, n: nat)
    requires i <= n && Cong(0, Exp(b, i), 128)
    ensures Cong(0, Exp(b, n), 128)
  {
    hide Cong, Pow2;
    ExpAdd(b, i, n - i);
    Refl(Exp(b, n - i), 128);
    CongMul(0, Exp(b, i), Exp(b, n - i), Exp(b, n - i), 128);
  }

  /** The `u64` the code produces for a negative exponent. */
  function NegativePower(base: int, exp: int): Word {
    if base == 1 then 1
    else if base == -1 then (if exp % 2 == 0 then 1 else BASE - 1)
    else 0
  }

  /** What `a ** b` computes, case by case. */
  ghost predicate Powered(v: Value, a: Value, b: Value) {
    var w, s, x := a.width, a.signed && b.signed, IntOf(a, a.signed);
    if b.signed && ToI64(b) < 0 then Holds(v, NegativePower(ToI64(a), ToI64(b)), w, s)
    else Holds(v, Exp(x, if w > 128 then ToU64(b) else Min(ToU64(b), CAP)), w, s)
  }

  lemma WidePowerResult(a: Value, acc: seq<Word>, e: nat)
    requires Known(a) && a.width > 128 && |acc| == NWords(a.width)
    requires Cong(ToNat(acc), Exp(ToNat(ArithWords(a, a.width, false)), e), a.width)
    ensures Holds(FromWords(acc, a.width), Exp(IntOf(a, a.signed), e), a.width, false)
  {
    hide FromWords, ArithWords, IntOf, Cong, Pow2, ToNat, Val;
    var w, base, x := a.width, ToNat(ArithWords(a, a.width, false)), IntOf(a, a.signed);
    OwnSign(a);
    ArithWordsCong(a, false, w);
    CongTrans(base, IntOf(a, false), x, w);
    CongExp(base, x, e, w);
    CongTrans(ToNat(acc), Exp(base, e), Exp(x, e), w);
    NoTruncation(acc);
    WideResult(acc, ToNat(acc), Exp(x, e), w);
  }

  lemma NoTruncation(ws: seq<Word>)
    ensures ToNat(ws) % Radix(|ws|) == ToNat(ws)
  {
    ValBound(ws, |ws|);
    SmallMod(ToNat(ws), Radix(|ws|));
  }

  lemma CappedPowerResult(a: Value, r: nat, e: nat)
    requires Known(a) && a.width <= 128 && r < BASE * BASE && Cong(r, Exp(ToU128(a), e), 128)
    ensures Holds(FromU128(r, a.width), Exp(IntOf(a, a.signed), e), a.width, false)
  {
    hide FromU128, IntOf, Cong, Pow2, ToU128;
    var w, x := a.width, IntOf(a, a.signed);
    KnownU128(a);
    OwnSign(a);
    CongExp(ToU128(a), x, e, w);
    CongWeaken(r, Exp(ToU128(a), e), 128, w);
    CongTrans(r, Exp(ToU128(a), e), Exp(x, e), w);
    SmallMod(r, BASE * BASE);
    MidResult(r, Exp(x, e), w);
  }

  method Power(a: Value, b: Value) returns (v: Value)
    requires Valid(a) && Valid(b)
    ensures if HasXz(a) || HasXz(b) then AllX(v, a.width) else Powered(v, a, b)
  {
    hide FromU64, FromU128, FromWords, ToU64, ToI64, ToU128, ArithWords, IntOf, Cong, HasXz, Pow2, AllUnknown, ToNat, NegativePower;
    HasXzIff(a);
    HasXzIff(b);
    var w, s := a.width, a.signed && b.signed;
    if HasXz(a) || HasXz(b) {
      AllUnknownIsX(w);
      return AllUnknown(w);
    }
    if b.signed && ToI64(b) < 0 {
      v := SmallResult(NegativePower(ToI64(a), ToI64(b)), w);
    } else if w > 128 {
      var acc := SquareMultiply(ArithWords(a, w, false), ToU64(b), w);
      WidePowerResult(a, acc, ToU64(b));
      v := FromWords(acc, w);
    } else {
      KnownU128(a);
      var r := CappedProduct(ToU128(a), Min(ToU64(b), CAP));
      CappedPowerResult(a, r, Min(ToU64(b), CAP));
      v := FromU128(r, w);
    }
    v := v.(signed := s);
  }

  /** `Value::from_u64` at any width. */
  method SmallResult(n: Word, w: nat) returns (v: Value)
    requires w <= MAX_WIDTH
    ensures Holds(v, n, w, false)
  {
    hide FromU64, FromWords, Pow2;
    if w <= 64 {
      FromU64Holds(n, w);
      v := FromU64(n, w);
    } else {
      FromWordsHolds([n], w);
      assert ToNat([n]) == n by { assert Val([n], 1) == Val([n], 0) + Scale(n, 0); }
      v := FromWords([n], w);
    }
  }
}
