module ValueArith {
  // Arithmetic on values: the three storage regimes compute one integer function.

  import opened WordBits
  import opened WordVec
  import opened Planes
  import opened Congruence
  import opened Values

  /* ---- host integers ---- */

  const HALF: nat := 0x8000_0000_0000_0000

  /** `w as i64` */
  function AsI64(w: Word): int { if w >= HALF then w - BASE else w }

  /** `i as u64` */
  function AsU64(i: int): Word { i % BASE }

  /** `n as i128`, for a `u128`. */
  function AsI128(n: nat): int { if n >= HALF * BASE then n - BASE * BASE else n }

  /** Integer division truncating toward zero. */
  function TruncDiv(a: int, b: int): int
    requires b != 0
  {
    var q := Abs(a) / Abs(b);
    if (a < 0) != (b < 0) then -q else q
  }

  /** The remainder that goes with `TruncDiv`; it takes the dividend's sign. */
  function TruncRem(a: int, b: int): int
    requires b != 0
  {
    var r := Abs(a) % Abs(b);
    if a < 0 then -r else r
  }

  function Abs(x: int): nat { if x < 0 then -x else x }

  lemma {:induction false} TruncLaw(a: int, b: int)
    requires b != 0
    ensures a == TruncDiv(a, b) * b + TruncRem(a, b)
    ensures Abs(TruncRem(a, b)) < Abs(b)
    ensures TruncRem(a, b) != 0 ==> (TruncRem(a, b) < 0) == (a < 0)
  {
    var q, r := Abs(a) / Abs(b), Abs(a) % Abs(b);
    assert Abs(a) == Abs(b) * q + r;
    SignedProducts(q, b);
  }

  lemma SignedProducts(q: int, b: int)
    ensures (-q) * b == -(q * b) && q * (-b) == -(q * b) && (-q) * (-b) == q * b
  {}

  /* ---- reading operands ---- */

  /** The low 64 bits, x/z read as 0. */
  function ToU64(v: Value): Word { RawWord(v, 0) }

  function ToI64(v: Value): int {
    var raw := ToU64(v);
    if v.signed && 0 < v.width < 64 && And64(raw, Shl64(1, v.width - 1)) != 0
    then AsI64(Or64(raw, Not64(Mask(v.width))))
    else AsI64(raw)
  }

  function ToU128(v: Value): nat { RawWord(v, 0) + RawWord(v, 1) * BASE }

  /** Sign-extend a `width`-bit pattern to 128 bits, as the unsigned pattern. */
  function Extend128(raw: nat, width: nat): nat {
    if width == 0 || width >= 128 || And(raw, Shl(1, width - 1)) == 0 then raw
    else Or(raw, Shl(Ones(128 - width), width))
  }

  function OperandU64(v: Value, s: bool, w: nat): Word {
    if s && v.width < w && v.width < 64 then AsU64(ToI64(v)) else ToU64(v)
  }

  function OperandU128(v: Value, s: bool, w: nat): nat {
    if s && v.width < w && v.width < 64 then ToI64(v) % (BASE * BASE)
    else if s && v.width < w then Extend128(ToU128(v), v.width)
    else ToU128(v)
  }

  lemma TestBit(n: nat, i: nat)
    ensures And(n, Shl(1, i)) != 0 <==> Bit(n, i)
  {
    hide And, Shl;
    OneBit(1);
    var a := And(n, Shl(1, i));
    if Bit(n, i) {
      assert Bit(a, i);
      ZeroBit(i);
    } else {
      forall k: nat ensures !Bit(a, k) { assert Bit(Shl(1, i), k) ==> k == i; }
      BoundFromBits(a, 0);
    }
  }

  /** `raw | !0 << width` adds `2^m - 2^width`. */
  lemma FillAbove(raw: nat, width: nat, m: nat, fill: nat)
    requires raw < Pow2(width) && width <= m
    requires forall i: nat :: Bit(fill, i) == (width <= i < m)
    ensures Or(raw, fill) == raw + Pow2(m) - Pow2(width)
  {
    hide Or, Pow2;
    HighBitsClear(raw, width);
    SignFill(raw, width, m);
    var o := Or(raw, fill);
    BoundFromBits(o, m);
    SameBits(o, Filled(raw, width, m), m);
  }

  lemma HalfIsTopBit(n: nat, width: nat)
    requires 0 < width && n < Pow2(width)
    ensures Bit(n, width - 1) <==> n >= Pow2(width - 1)
  {
    hide Shr, Low;
    Split(n, width - 1);
    assert Bit(n, width - 1) == Bit(Shr(n, width - 1), 0);
    if Shr(n, width - 1) >= 2 { MulMono(Pow2(width - 1), 2, Shr(n, width - 1)); }
    assert Bit(Shr(n, width - 1), 0) == (Shr(n, width - 1) % 2 == 1);
  }

  lemma KnownWord0(v: Value)
    requires Known(v) && v.width <= 64
    ensures ToU64(v) == ValPlane(v)
  {
    hide Bit, RawWord;
    BaseIsPow2();
    forall i: nat | i < 64 ensures Bit(ToU64(v), i) == Bit(ValPlane(v), i) { KnownRaw(v, i); }
    Pow2Mono(v.width, 64);
    SameBits(ToU64(v), ValPlane(v), 64);
  }

  lemma HalfIsPow2()
    ensures HALF == Pow2(63)
  {
    BaseIsPow2();
    assert Pow2(64) == 2 * Pow2(63);
  }

  /** `raw & sign_bit` tests the top bit; setting every bit above it subtracts `2^width` from an `i64`. */
  lemma SignFill64(raw: Word, width: nat)
    requires raw < Pow2(width) && 0 < width < 64
    ensures And64(raw, Shl64(1, width - 1)) != 0 <==> Bit(raw, width - 1)
    ensures Or64(raw, Not64(Mask(width))) == raw + BASE - Pow2(width)
    ensures Pow2(width) <= HALF
  {
    hide Bit, And, Or, Not64, Mask, Shl64, Shl, Pow2;
    HalfIsPow2();
    BaseIsPow2();
    ShiftedOne(width - 1);
    TestBit(raw, width - 1);
    FillAbove(raw, width, 64, Not64(Mask(width)));
    Pow2Mono(width, 63);
  }

  /** `to_i64` is the two's-complement reading of a signed value. */
  lemma ToI64Value(v: Value)
    requires Known(v) && v.width <= 64
    ensures ToI64(v) == if v.signed then IntOf(v, true) else AsI64(ValPlane(v))
  {
    hide Bit, And64, Or64, Not64, Mask, RawWord, Shl64, Pow2;
    KnownWord0(v);
    if v.signed && 0 < v.width < 64 {
      SignFill64(ToU64(v), v.width);
    } else if v.signed {
      FullSign(ToU64(v), v.width);
    }
  }

  lemma FullSign(raw: Word, width: nat)
    requires raw < Pow2(width) && (width == 0 || width == 64)
    ensures AsI64(raw) == Signed(raw, width, true)
  {
    if width == 64 {
      hide Bit, Pow2;
      HalfIsPow2();
      BaseIsPow2();
      HalfIsTopBit(raw, 64);
    }
  }

  lemma OperandU64Cong(v: Value, s: bool, w: nat)
    requires Known(v) && (s ==> v.signed) && v.width <= w <= 64
    ensures Cong(OperandU64(v, s, w), IntOf(v, s), w)
  {
    hide Bit, ToI64, ToU64, Pow2;
    KnownWord0(v);
    BaseIsPow2();
    if s && v.width < w && v.width < 64 {
      ToI64Value(v);
      Idempotent(ToI64(v), 64);
      CongWeaken(OperandU64(v, s, w), ToI64(v), 64, w);
    } else if IntOf(v, s) < 0 {
      CongFromMultiple(ToU64(v), IntOf(v, s), 1, w);
    }
  }

  /* ---- 65 to 128 bits ---- */

  lemma BaseSquared()
    ensures BASE * BASE == Pow2(128)
  {
    BaseIsPow2();
    Pow2Add(64, 64);
  }

  lemma TwoWords(ws: seq<Word>)
    requires |ws| == 2
    ensures ToNat(ws) == ws[0] + ws[1] * BASE
  {
    assert Val(ws, 1) == Val(ws, 0) + Scale(ws[0], 0);
    assert Scale(ws[1], 1) == BASE * Scale(ws[1], 0);
  }

  lemma KnownU128(v: Value)
    requires Known(v) && v.width <= 128
    ensures ToU128(v) == ValPlane(v) < BASE * BASE
  {
    hide Bit, RawWord, ToNat, Pow2;
    var ws := [RawWord(v, 0), RawWord(v, 1)];
    TwoWords(ws);
    PlaneNumber(ws);
    BaseSquared();
    Pow2Mono(v.width, 128);
    RadixIsPow2(2);
    ValBound(ws, 2);
    HighBitsClear(ValPlane(v), v.width);
    forall i: nat | i < 128 ensures Bit(ToNat(ws), i) == Bit(ValPlane(v), i) {
      KnownRaw(v, i);
      assert WBit(ws, i) == RawBit(v, i);
    }
    SameBits(ToNat(ws), ValPlane(v), 128);
  }

  lemma Extend128Cong(raw: nat, width: nat, w: nat)
    requires raw < Pow2(width) && width <= w <= 128
    ensures Cong(Extend128(raw, width), Signed(raw, width, true), w)
  {
    hide Bit, And, Or, Shl, Ones, Pow2, Cong;
    if width > 0 { TestBit(raw, width - 1); }
    if 0 < width < 128 && Bit(raw, width - 1) {
      FillAbove(raw, width, 128, Shl(Ones(128 - width), width));
      TopReading(Extend128(raw, width), raw, width, 128, w);
    } else if width == 128 && Bit(raw, width - 1) {
      assert w == 128;
      CongFromMultiple(raw, Signed(raw, width, true), 1, 128);
    } else {
      CongFromMultiple(raw, raw, 0, w);
    }
  }

  lemma TopReading(n: int, raw: nat, width: nat, m: nat, w: nat)
    requires 0 < width && Bit(raw, width - 1) && w <= m && n == raw + Pow2(m) - Pow2(width)
    ensures Cong(n, Signed(raw, width, true), w)
  {
    hide Bit, Pow2, Cong;
    CongFromMultiple(n, Signed(raw, width, true), 1, m);
    CongWeaken(n, Signed(raw, width, true), m, w);
  }

  lemma OperandU128Cong(v: Value, s: bool, w: nat)
    requires Known(v) && (s ==> v.signed) && v.width <= w <= 128
    ensures Cong(OperandU128(v, s, w), IntOf(v, s), w)
  {
    hide Bit, ToI64, ToU128, Extend128, Pow2;
    KnownU128(v);
    if s && v.width < w && v.width < 64 {
      ToI64Value(v);
      BaseSquared();
      Idempotent(ToI64(v), 128);
      CongWeaken(OperandU128(v, s, w), ToI64(v), 128, w);
    } else if s && v.width < w {
      Extend128Cong(ValPlane(v), v.width, w);
    } else if IntOf(v, s) < 0 {
      CongFromMultiple(ToU128(v), IntOf(v, s), 1, w);
    }
  }

  lemma ArithWordsCong(v: Value, s: bool, w: nat)
    requires Known(v) && v.width <= w
    ensures Cong(ToNat(ArithWords(v, w, s)), IntOf(v, s), w)
  {
    hide Bit, ToNat, ArithWords, Pow2;
    var m := 64 * NWords(w);
    ArithWordsValue(v, w, s);
    CongFromMultiple(ToNat(ArithWords(v, w, s)), IntOf(v, s), if IntOf(v, s) < 0 then 1 else 0, m);
    CongWeaken(ToNat(ArithWords(v, w, s)), IntOf(v, s), m, w);
  }

  /* ---- results ---- */

  function FromU128(n: nat, width: nat): Value
    requires n < BASE * BASE
  {
    if width <= 64 then FromU64(n % BASE, width) else FromWords([n % BASE, n / BASE], width)
  }

  /** A result whose host pattern is congruent to `x` holds `x` at `w` bits. */
  lemma NarrowResult(n: int, x: int, w: nat)
    requires w <= 64 && Cong(n, x, w)
    ensures Holds(FromU64(n % BASE, w), x, w, false)
  {
    hide FromU64, Pow2;
    BaseIsPow2();
    FromU64Holds(n % BASE, w);
    Reduced(n, x, 64, w);
  }

  lemma MidResult(n: int, x: int, w: nat)
    requires w <= 128 && Cong(n, x, w)
    ensures n % (BASE * BASE) < BASE * BASE
    ensures Holds(FromU128(n % (BASE * BASE), w), x, w, false)
  {
    hide FromU64, FromWords, Pow2;
    BaseSquared();
    Reduced(n, x, 128, w);
    var m := n % (BASE * BASE);
    if w <= 64 {
      BaseIsPow2();
      Idempotent(m, 64);
      CongWeaken(m % BASE, m, 64, w);
      FromU64Holds(m % BASE, w);
    } else {
      TwoWords([m % BASE, m / BASE]);
      FromWordsHolds([m % BASE, m / BASE], w);
    }
  }

  lemma WideResult(ws: seq<Word>, n: int, x: int, w: nat)
    requires 64 < w <= MAX_WIDTH && |ws| == NWords(w) && ToNat(ws) == n % Radix(|ws|) && Cong(n, x, w)
    ensures Holds(FromWords(ws, w), x, w, false)
  {
    hide FromWords, ToNat, Pow2, Radix;
    FromWordsHolds(ws, w);
    RadixIsPow2(|ws|);
    Reduced(n, x, 64 * |ws|, w);
  }

  /* ---- operations ---- */

  lemma NarrowUnknown(w: nat)
    requires w <= 64
    ensures AllX(AllUnknown(w), w)
  {
    hide Mask, Pow2;
    assert AllUnknown(w) == Value(Inline(0, Mask(w)), w, false);
  }

  lemma AllUnknownIsX(w: nat)
    requires w <= MAX_WIDTH
    ensures AllX(AllUnknown(w), w)
  {
    hide Mask, MaskedWords, Val, Pow2, WBit;
    var n := NWords(w);
    if w <= 64 {
      NarrowUnknown(w);
    } else {
      var xzs := MaskedWords(OnesWords(n), w);
      MaskedWordsBits(OnesWords(n), w);
      PlaneNumber(xzs);
      MaskedIff(xzs, w);
      ValZeros(Zeros(n), n);
      forall i: nat | i < w ensures Bit(ToNat(xzs), i) == Bit(Ones(w), i) { OnesWord(n, i); }
      SameBits(ToNat(xzs), Ones(w), w);
    }
  }

  /** How a binary arithmetic result relates to its operands. */
  ghost predicate Computes(v: Value, a: Value, b: Value, x: int) {
    var w, s := Max(a.width, b.width), a.signed && b.signed;
    if HasXz(a) || HasXz(b) then AllX(v, w) else Holds(v, x, w, s)
  }

  method Add(a: Value, b: Value) returns (v: Value)
    requires Valid(a) && Valid(b)
    ensures Computes(v, a, b, IntOf(a, a.signed && b.signed) + IntOf(b, a.signed && b.signed))
  {
    hide FromU64, FromU128, FromWords, OperandU64, OperandU128, ArithWords, IntOf, ToNat, Cong, HasXz, Pow2, AllUnknown;
    HasXzIff(a);
    HasXzIff(b);
    var w, s := Max(a.width, b.width), a.signed && b.signed;
    if HasXz(a) || HasXz(b) {
      AllUnknownIsX(w);
      return AllUnknown(w);
    }
    if w <= 64 {
      OperandU64Cong(a, s, w);
      OperandU64Cong(b, s, w);
      var x, y := OperandU64(a, s, w), OperandU64(b, s, w);
      CongAdd(x, IntOf(a, s), y, IntOf(b, s), w);
      NarrowResult(x + y, IntOf(a, s) + IntOf(b, s), w);
      v := FromU64((x + y) % BASE, w);
    } else if w <= 128 {
      OperandU128Cong(a, s, w);
      OperandU128Cong(b, s, w);
      var x, y := OperandU128(a, s, w), OperandU128(b, s, w);
      CongAdd(x, IntOf(a, s), y, IntOf(b, s), w);
      MidResult(x + y, IntOf(a, s) + IntOf(b, s), w);
      v := FromU128((x + y) % (BASE * BASE), w);
    } else {
      ArithWordsCong(a, s, w);
      ArithWordsCong(b, s, w);
      var x, y := ArithWords(a, w, s), ArithWords(b, w, s);
      CongAdd(ToNat(x), IntOf(a, s), ToNat(y), IntOf(b, s), w);
      var ws := WordsAdd(x, y);
      WideResult(ws, ToNat(x) + ToNat(y), IntOf(a, s) + IntOf(b, s), w);
      v := FromWords(ws, w);
    }
    v := v.(signed := s);
  }

  method Sub(a: Value, b: Value) returns (v: Value)
    requires Valid(a) && Valid(b)
    ensures Computes(v, a, b, IntOf(a, a.signed && b.signed) - IntOf(b, a.signed && b.signed))
  {
    hide FromU64, FromU128, FromWords, OperandU64, OperandU128, ArithWords, IntOf, ToNat, Cong, HasXz, Pow2, AllUnknown;
    HasXzIff(a);
    HasXzIff(b);
    var w, s := Max(a.width, b.width), a.signed && b.signed;
    if HasXz(a) || HasXz(b) {
      AllUnknownIsX(w);
      return AllUnknown(w);
    }
    if w <= 64 {
      OperandU64Cong(a, s, w);
      OperandU64Cong(b, s, w);
      var x, y := OperandU64(a, s, w), OperandU64(b, s, w);
      CongAdd(x, IntOf(a, s), y, IntOf(b, s), w);
      NarrowResult(x - y, IntOf(a, s) - IntOf(b, s), w);
      v := FromU64((x - y) % BASE, w);
    } else if w <= 128 {
      OperandU128Cong(a, s, w);
      OperandU128Cong(b, s, w);
      var x, y := OperandU128(a, s, w), OperandU128(b, s, w);
      CongAdd(x, IntOf(a, s), y, IntOf(b, s), w);
      MidResult(x - y, IntOf(a, s) - IntOf(b, s), w);
      v := FromU128((x - y) % (BASE * BASE), w);
    } else {
      ArithWordsCong(a, s, w);
      ArithWordsCong(b, s, w);
      var x, y := ArithWords(a, w, s), ArithWords(b, w, s);
      CongAdd(ToNat(x), IntOf(a, s), ToNat(y), IntOf(b, s), w);
      var ws := WordsSub(x, y);
      WideResult(ws, ToNat(x) - ToNat(y), IntOf(a, s) - IntOf(b, s), w);
      v := FromWords(ws, w);
    }
    v := v.(signed := s);
  }

  method Mul(a: Value, b: Value) returns (v: Value)
    requires Valid(a) && Valid(b)
    ensures Computes(v, a, b, IntOf(a, a.signed && b.signed) * IntOf(b, a.signed && b.signed))
  {
    hide FromU64, FromU128, FromWords, OperandU64, OperandU128, ArithWords, IntOf, ToNat, Cong, HasXz, Pow2, AllUnknown;
    HasXzIff(a);
    HasXzIff(b);
    var w, s := Max(a.width, b.width), a.signed && b.signed;
    if HasXz(a) || HasXz(b) {
      AllUnknownIsX(w);
      return AllUnknown(w);
    }
    if w <= 64 {
      OperandU64Cong(a, s, w);
      OperandU64Cong(b, s, w);
      var x, y := OperandU64(a, s, w), OperandU64(b, s, w);
      CongMul(x, IntOf(a, s), y, IntOf(b, s), w);
      NarrowResult(x * y, IntOf(a, s) * IntOf(b, s), w);
      v := FromU64((x * y) % BASE, w);
    } else if w <= 128 {
      OperandU128Cong(a, s, w);
      OperandU128Cong(b, s, w);
      var x, y := OperandU128(a, s, w), OperandU128(b, s, w);
      CongMul(x, IntOf(a, s), y, IntOf(b, s), w);
      MidResult(x * y, IntOf(a, s) * IntOf(b, s), w);
      v := FromU128((x * y) % (BASE * BASE), w);
    } else {
      ArithWordsCong(a, s, w);
      ArithWordsCong(b, s, w);
      var x, y := ArithWords(a, w, s), ArithWords(b, w, s);
      CongMul(ToNat(x), IntOf(a, s), ToNat(y), IntOf(b, s), w);
      var ws := WordsMul(x, y);
      WideResult(ws, ToNat(x) * ToNat(y), IntOf(a, s) * IntOf(b, s), w);
      v := FromWords(ws, w);
    }
    v := v.(signed := s);
  }

  method Negate(a: Value) returns (v: Value)
    requires Valid(a)
    ensures if HasXz(a) then AllX(v.(signed := false), a.width) && v.signed == a.signed
            else Holds(v, 0 - IntOf(a, a.signed), a.width, a.signed)
  {
    hide FromU64, FromWords, ArithWords, ToNat, HasXz, Pow2, AllUnknown, ToU64, IntOf;
    HasXzIff(a);
    if HasXz(a) {
      AllUnknownIsX(a.width);
      return AllUnknown(a.width).(signed := a.signed);
    }
    OwnSign(a);
    if a.width > 64 {
      ArithWordsCong(a, false, a.width);
      var x := ArithWords(a, a.width, false);
      CongAdd(0, 0, ToNat(x), IntOf(a, a.signed), a.width);
      var ws := WordsNeg(x);
      WideResult(ws, 0 - ToNat(x), 0 - IntOf(a, a.signed), a.width);
      v := FromWords(ws, a.width);
    } else {
      KnownWord0(a);
      CongAdd(0, 0, ToU64(a), IntOf(a, a.signed), a.width);
      NarrowResult(0 - ToU64(a), 0 - IntOf(a, a.signed), a.width);
      v := FromU64((0 - ToU64(a)) % BASE, a.width);
    }
    v := v.(signed := a.signed);
  }

  /** At a value's own width its two readings agree modulo `2^width`. */
  lemma OwnSign(a: Value)
    requires Valid(a)
    ensures Cong(ValPlane(a), IntOf(a, a.signed), a.width) && Cong(IntOf(a, false), IntOf(a, a.signed), a.width)
  {
    hide Pow2, Bit;
    CongFromMultiple(ValPlane(a), IntOf(a, a.signed), if IntOf(a, a.signed) < 0 then 1 else 0, a.width);
  }

  /* ---- division ---- */

  /** `i64::wrapping_div`: only `MIN / -1` overflows. */
  function WrappingDiv(a: int, b: int): int
    requires b != 0
  {
    if a == 0 - HALF as int && b == -1 then a else TruncDiv(a, b)
  }

  /** The words of `|x|`, `x` being what the sign-extended words `ws` denote. */
  method Magnitude(ws: seq<Word>, neg: bool, ghost x: int) returns (m: seq<Word>)
    requires ToNat(ws) == x + (if x < 0 then Radix(|ws|) else 0) && neg == (x < 0) && Abs(x) < Radix(|ws|)
    ensures |m| == |ws| && ToNat(m) == Abs(x)
  {
    hide ToNat, Radix;
    if neg {
      m := WordsNeg(ws);
      DivUnique(0 - ToNat(ws), Radix(|ws|), -1, -x);
    } else {
      m := ws;
    }
  }

  /** The sign-extended words of an operand and the integer they denote. */
  lemma OperandFacts(v: Value, w: nat, s: bool)
    requires Known(v) && v.width <= w && w > 0
    ensures var x, i := ArithWords(v, w, s), IntOf(v, s);
      && ToNat(x) == i + (if i < 0 then Radix(|x|) else 0)
      && Abs(i) < Radix(|x|)
      && (s && WBit(x, w - 1) <==> i < 0)
      && (ToNat(x) == 0 <==> i == 0) && (i == 0 <==> ValPlane(v) == 0)
  {
    hide ToNat, Radix, ArithWords, Pow2, Bit, WBit;
    ArithWordsValue(v, w, s);
    ArithWordsBits(v, w, s);
    assert WBit(ArithWords(v, w, s), w - 1) == ExtendedBit(v, w, s, w - 1);
    RadixIsPow2(NWords(w));
    Pow2Mono(v.width, 64 * NWords(w));
    if v.width > 0 { HalfIsTopBit(ValPlane(v), v.width); }
  }

  ghost function Quotient(a: int, b: int, rem: bool): int
    requires b != 0
  {
    if rem then TruncRem(a, b) else TruncDiv(a, b)
  }

  /** Quotient or remainder of two known operands; unknown for a zero divisor. */
  ghost predicate Divided(v: Value, a: Value, b: Value, rem: bool) {
    var w, s := Max(a.width, b.width), a.signed && b.signed;
    if IntOf(b, s) == 0 then AllX(v, w) else Holds(v, Quotient(IntOf(a, s), IntOf(b, s), rem), w, s)
  }

  /** Quotient and remainder as numbers. */
  method DivideWords(a: seq<Word>, b: seq<Word>) returns (q: seq<Word>, r: seq<Word>)
    requires |a| == |b| && ToNat(b) != 0
    ensures |q| == |r| == |a| && ToNat(q) == ToNat(a) / ToNat(b) && ToNat(r) == ToNat(a) % ToNat(b)
  {
    hide ToNat;
    q, r := WordsDivmod(a, b);
    QuotientUnique(ToNat(a), ToNat(b), ToNat(q), ToNat(r));
  }

  /** `a / b` (or `a % b` when `rem`) above 128 bits: magnitudes divide, then the signs go back on. */
  method WideDivmod(a: Value, b: Value, w: nat, rem: bool) returns (v: Value)
    requires Known(a) && Known(b) && w == Max(a.width, b.width) && w > 64
    ensures Divided(v, a, b, rem)
  {
    hide ToNat, Radix, ArithWords, Val, Pow2, FromWords, Bit, WBit, AllUnknown, IntOf;
    var s := a.signed && b.signed;
    var x, y := ArithWords(a, w, s), ArithWords(b, w, s);
    ghost var ia, ib := IntOf(a, s), IntOf(b, s);
    OperandFacts(a, w, s);
    OperandFacts(b, w, s);
    var zero := WordsIsZero(y);
    if zero {
      AllUnknownIsX(w);
      return AllUnknown(w);
    }
    var an, bn := s && WBit(x, w - 1), s && WBit(y, w - 1);
    var am := Magnitude(x, an, ia);
    var bm := Magnitude(y, bn, ib);
    var q, r := DivideWords(am, bm);
    var res, neg := if rem then r else q, if rem then an else an != bn;
    SignsBack(ia, ib, an, bn, ToNat(q), ToNat(r), rem);
    v := SignedResult(res, neg, w, s);
  }

  /** The magnitudes' quotient and remainder with the signs put back. */
  lemma SignsBack(a: int, b: int, an: bool, bn: bool, q: nat, r: nat, rem: bool)
    requires b != 0 && an == (a < 0) && bn == (b < 0) && q == Abs(a) / Abs(b) && r == Abs(a) % Abs(b)
    ensures Quotient(a, b, rem) == if rem then (if an then 0 - r as int else r) else if an != bn then 0 - q as int else q
  {}

  /** A magnitude with its sign, as a `w`-bit value. */
  method SignedResult(mag: seq<Word>, neg: bool, w: nat, s: bool) returns (v: Value)
    requires 64 < w <= MAX_WIDTH && |mag| == NWords(w)
    ensures Holds(v, if neg then 0 - ToNat(mag) as int else ToNat(mag), w, s)
  {
    hide ToNat, Radix, Val, Pow2, FromWords;
    var res := mag;
    ghost var exact: int := if neg then 0 - ToNat(mag) else ToNat(mag);
    ValBound(res, |res|);
    WholeValue(res);
    SmallMod(ToNat(res), Radix(|res|));
    if neg { res := WordsNeg(res); }
    CongFromMultiple(exact, exact, 0, w);
    WideResult(res, exact, exact, w);
    v := FromWords(res, w).(signed := s);
  }

  lemma QuotientUnique(a: nat, b: nat, q: nat, r: nat)
    requires a == q * b + r && r < b
    ensures a / b == q && a % b == r
  {
    DivUnique(a, b, q, r);
  }

  lemma ZeroDivisor(v: Value, s: bool)
    requires Known(v)
    ensures IntOf(v, s) == 0 <==> ValPlane(v) == 0
  {
    if v.width > 0 { HalfIsTopBit(ValPlane(v), v.width); }
  }

  /** `i128_at_width` is the two's-complement reading. */
  lemma I128Value(raw: nat, width: nat)
    requires raw < Pow2(width) && 0 < width <= 128
    ensures AsI128(Extend128(raw, width)) == Signed(raw, width, true)
  {
    hide Bit, And, Or, Shl, Ones, Pow2;
    Half128();
    TestBit(raw, width - 1);
    HalfIsTopBit(raw, width);
    Pow2Mono(width - 1, 127);
    if width < 128 {
      Pow2Mono(width, 127);
      if Bit(raw, width - 1) { FillAbove(raw, width, 128, Shl(Ones(128 - width), width)); }
    }
  }

  lemma Half128()
    ensures HALF * BASE == Pow2(127) && BASE * BASE == Pow2(128) == 2 * Pow2(127)
  {
    HalfIsPow2();
    BaseIsPow2();
    Pow2Add(63, 64);
    Pow2Add(64, 64);
    assert Pow2(128) == 2 * Pow2(127);
  }

  /** A wrapped quotient is congruent to the exact one. */
  lemma WrappedCong(a: int, b: int, w: nat)
    requires b != 0 && w <= 64
    ensures Cong(WrappingDiv(a, b), TruncDiv(a, b), w)
  {
    if a == 0 - HALF as int && b == -1 {
      BaseIsPow2();
      CongFromMultiple(TruncDiv(a, b), a, 1, 64);
      CongWeaken(TruncDiv(a, b), a, 64, w);
    }
  }

  function WrappingDiv128(a: int, b: int): int
    requires b != 0
  {
    if a == 0 - (HALF * BASE) as int && b == -1 then a else TruncDiv(a, b)
  }

  lemma WrappedCong128(a: int, b: int, w: nat)
    requires b != 0 && w <= 128
    ensures Cong(WrappingDiv128(a, b), TruncDiv(a, b), w)
  {
    if a == 0 - (HALF * BASE) as int && b == -1 {
      Half128();
      CongFromMultiple(TruncDiv(a, b), a, 1, 128);
      CongWeaken(TruncDiv(a, b), a, 128, w);
    }
  }

  /** Both readings of the operands of a division of at most 64 bits. */
  lemma NarrowDivision(a: Value, b: Value, w: nat, rem: bool)
    requires Known(a) && Known(b) && w == Max(a.width, b.width) <= 64 && ValPlane(b) != 0
    ensures var s := a.signed && b.signed;
      && IntOf(b, s) != 0 && ToU64(b) != 0 && (s ==> ToI64(b) != 0)
      && (if s then Cong(if rem then TruncRem(ToI64(a), ToI64(b)) else WrappingDiv(ToI64(a), ToI64(b)), Quotient(IntOf(a, s), IntOf(b, s), rem), w)
          else Quotient(IntOf(a, s), IntOf(b, s), rem) == if rem then ToU64(a) % ToU64(b) else ToU64(a) / ToU64(b))
  {
    hide Bit, Pow2, ToI64, ToU64, Cong;
    var s := a.signed && b.signed;
    KnownWord0(a);
    KnownWord0(b);
    ZeroDivisor(b, s);
    if s {
      ToI64Value(a);
      ToI64Value(b);
      WrappedCong(IntOf(a, s), IntOf(b, s), w);
      CongFromMultiple(TruncRem(IntOf(a, s), IntOf(b, s)), TruncRem(IntOf(a, s), IntOf(b, s)), 0, w);
    }
  }

  lemma MidDivision(a: Value, b: Value, w: nat, rem: bool)
    requires Known(a) && Known(b) && 64 < w == Max(a.width, b.width) <= 128 && ValPlane(b) != 0
    ensures var s, x, y := a.signed && b.signed, AsI128(Extend128(ToU128(a), a.width)), AsI128(Extend128(ToU128(b), b.width));
      && IntOf(b, s) != 0 && ToU128(b) != 0 && (s ==> y != 0)
      && (if s then Cong(if rem then TruncRem(x, y) else WrappingDiv128(x, y), Quotient(IntOf(a, s), IntOf(b, s), rem), w)
          else Quotient(IntOf(a, s), IntOf(b, s), rem) == if rem then ToU128(a) % ToU128(b) else ToU128(a) / ToU128(b))
  {
    hide Bit, Pow2, ToU128, Cong, Extend128, AsI128;
    var s := a.signed && b.signed;
    KnownU128(a);
    KnownU128(b);
    ZeroDivisor(b, s);
    if s {
      I128Reading(a);
      I128Reading(b);
      WrappedCong128(IntOf(a, s), IntOf(b, s), w);
      CongFromMultiple(TruncRem(IntOf(a, s), IntOf(b, s)), TruncRem(IntOf(a, s), IntOf(b, s)), 0, w);
    }
  }

  lemma I128Reading(v: Value)
    requires Known(v) && v.width <= 128
    ensures AsI128(Extend128(ToU128(v), v.width)) == IntOf(v, true)
  {
    hide Bit, AsI128, Extend128, ToU128;
    KnownU128(v);
    if v.width > 0 { I128Value(ValPlane(v), v.width); } else { ZeroExtends(); }
  }

  lemma ZeroExtends()
    ensures AsI128(Extend128(0, 0)) == 0
  {}

  lemma QuotientFits(a: nat, b: nat)
    requires b > 0
    ensures 0 <= a / b <= a && 0 <= a % b <= a
  {
    MulMono(a / b, 1, b);
  }

  lemma MidExact(n: nat, w: nat)
    requires w <= 128 && n < BASE * BASE
    ensures Holds(FromU128(n, w), n, w, false)
  {
    hide FromU128, Pow2;
    SmallMod(n, BASE * BASE);
    MidResult(n, n, w);
  }

  method Div(a: Value, b: Value) returns (v: Value)
    requires Valid(a) && Valid(b)
    ensures if HasXz(a) || HasXz(b) then AllX(v, Max(a.width, b.width)) else Divided(v, a, b, false)
  {
    hide FromU64, FromU128, ToU64, ToI64, ToU128, Extend128, AsI128, IntOf, Cong, HasXz, Pow2, AllUnknown, TruncDiv, WrappingDiv, WrappingDiv128, Quotient;
    HasXzIff(a);
    HasXzIff(b);
    var w, s := Max(a.width, b.width), a.signed && b.signed;
    if HasXz(a) || HasXz(b) {
      AllUnknownIsX(w);
      return AllUnknown(w);
    }
    ZeroDivisor(b, s);
    ghost var exact := if IntOf(b, s) == 0 then 0 else Quotient(IntOf(a, s), IntOf(b, s), false);
    if w <= 64 {
      KnownWord0(b);
      if ToU64(b) == 0 {
        AllUnknownIsX(w);
        return AllUnknown(w);
      }
      NarrowDivision(a, b, w, false);
      if s {
        NarrowResult(WrappingDiv(ToI64(a), ToI64(b)), exact, w);
        v := FromU64(AsU64(WrappingDiv(ToI64(a), ToI64(b))), w).(signed := true);
      } else {
        FromU64Holds(ToU64(a) / ToU64(b), w);
        v := FromU64(ToU64(a) / ToU64(b), w);
      }
    } else if w > 128 {
      v := WideDivmod(a, b, w, false);
    } else {
      KnownU128(a);
      KnownU128(b);
      if ToU128(b) == 0 {
        AllUnknownIsX(w);
        return AllUnknown(w);
      }
      v := MidQuotient(a, b, w);
    }
  }

  /** `a / b` between 65 and 128 bits, for a divisor that is not zero. */
  method MidQuotient(a: Value, b: Value, w: nat) returns (v: Value)
    requires Known(a) && Known(b) && 64 < w == Max(a.width, b.width) <= 128 && ValPlane(b) != 0
    ensures Divided(v, a, b, false)
  {
    hide FromU128, ToU128, Extend128, AsI128, IntOf, Cong, Pow2, TruncDiv, WrappingDiv128, Quotient;
    var s := a.signed && b.signed;
    KnownU128(a);
    KnownU128(b);
    MidDivision(a, b, w, false);
    if s {
      var q := WrappingDiv128(AsI128(Extend128(ToU128(a), a.width)), AsI128(Extend128(ToU128(b), b.width)));
      MidResult(q, Quotient(IntOf(a, s), IntOf(b, s), false), w);
      v := FromU128(q % (BASE * BASE), w).(signed := true);
    } else {
      QuotientFits(ToU128(a), ToU128(b));
      MidExact(ToU128(a) / ToU128(b), w);
      v := FromU128(ToU128(a) / ToU128(b), w);
    }
  }

  method Modulo(a: Value, b: Value) returns (v: Value)
    requires Valid(a) && Valid(b)
    ensures if HasXz(a) || HasXz(b) then AllX(v, Max(a.width, b.width)) else Divided(v, a, b, true)
  {
    hide FromU64, FromU128, ToU64, ToI64, ToU128, Extend128, AsI128, IntOf, Cong, HasXz, Pow2, AllUnknown, TruncRem, WrappingDiv, WrappingDiv128;
    HasXzIff(a);
    HasXzIff(b);
    var w, s := Max(a.width, b.width), a.signed && b.signed;
    if HasXz(a) || HasXz(b) {
      AllUnknownIsX(w);
      return AllUnknown(w);
    }
    ZeroDivisor(b, s);
    ghost var exact := if IntOf(b, s) == 0 then 0 else Quotient(IntOf(a, s), IntOf(b, s), true);
    if w <= 64 {
      KnownWord0(b);
      if ToU64(b) == 0 {
        AllUnknownIsX(w);
        return AllUnknown(w);
      }
      NarrowDivision(a, b, w, true);
      if s {
        NarrowResult(TruncRem(ToI64(a), ToI64(b)), exact, w);
        v := FromU64(AsU64(TruncRem(ToI64(a), ToI64(b))), w).(signed := true);
      } else {
        FromU64Holds(ToU64(a) % ToU64(b), w);
        v := FromU64(ToU64(a) % ToU64(b), w);
      }
    } else if w > 128 {
      v := WideDivmod(a, b, w, true);
    } else {
      KnownU128(a);
      KnownU128(b);
      if ToU128(b) == 0 {
        AllUnknownIsX(w);
        return AllUnknown(w);
      }
      MidDivision(a, b, w, true);
      if s {
        var r := TruncRem(AsI128(Extend128(ToU128(a), a.width)), AsI128(Extend128(ToU128(b), b.width)));
        MidResult(r, exact, w);
        v := FromU128(r % (BASE * BASE), w).(signed := true);
      } else {
        QuotientFits(ToU128(a), ToU128(b));
        MidExact(ToU128(a) % ToU128(b), w);
        v := FromU128(ToU128(a) % ToU128(b), w);
      }
    }
  }

  /* ---- comparison ---- */

  /** Relational compare of known operands at the wider width; signed only when both are. */
  method WideCmp(a: Value, b: Value) returns (o: Ordering)
    requires Known(a) && Known(b) && Max(a.width, b.width) > 0
    ensures var s := a.signed && b.signed; o == Compare(IntOf(a, s), IntOf(b, s))
  {
    hide ToNat, Radix, ArithWords, Val, Pow2, Bit, WBit, IntOf;
    var w, s := Max(a.width, b.width), a.signed && b.signed;
    var x, y := ArithWords(a, w, s), ArithWords(b, w, s);
    OperandFacts(a, w, s);
    OperandFacts(b, w, s);
    if s && WBit(x, w - 1) != WBit(y, w - 1) {
      return if WBit(x, w - 1) then Less else Greater;
    }
    o := WordsCmp(x, y);
    if !s { UnsignedInt(a); UnsignedInt(b); }
  }

  lemma UnsignedInt(v: Value)
    ensures IntOf(v, false) >= 0
  {}

  /** A truth value as a one-bit result. */
  function Truth(t: bool): Value { FromU64(if t then 1 else 0, 1) }

  lemma TruthHolds()
    ensures Holds(Truth(true), 1, 1, false) && Holds(Truth(false), 0, 1, false)
  {
    hide FromU64;
    FromU64Holds(1, 1);
    FromU64Holds(0, 1);
  }

  method LessThan(a: Value, b: Value) returns (r: Value)
    requires Valid(a) && Valid(b)
    ensures var s := a.signed && b.signed;
      r == if HasXz(a) || HasXz(b) then AllUnknown(1) else Truth(IntOf(a, s) < IntOf(b, s))
    ensures var s := a.signed && b.signed;
      if Known(a) && Known(b) then Holds(r, if IntOf(a, s) < IntOf(b, s) then 1 else 0, 1, false) else AllX(r, 1)
  {
    hide ToU64, ToI64, IntOf, HasXz, AllUnknown, FromU64, AllX;
    AllUnknownIsX(1);
    TruthHolds();
    HasXzIff(a);
    HasXzIff(b);
    if HasXz(a) || HasXz(b) { return AllUnknown(1); }
    if a.width > 64 || b.width > 64 {
      var o := WideCmp(a, b);
      return Truth(o == Less);
    }
    if a.signed && b.signed {
      ToI64Value(a);
      ToI64Value(b);
      r := Truth(ToI64(a) < ToI64(b));
    } else {
      NarrowUnsigned(a);
      NarrowUnsigned(b);
      r := Truth(ToU64(a) < ToU64(b));
    }
  }

  lemma NarrowUnsigned(v: Value)
    requires Known(v) && v.width <= 64
    ensures ToU64(v) == IntOf(v, false)
  {
    KnownWord0(v);
  }

  method LessEqual(a: Value, b: Value) returns (r: Value)
    requires Valid(a) && Valid(b)
    ensures var s := a.signed && b.signed;
      r == if HasXz(a) || HasXz(b) then AllUnknown(1) else Truth(IntOf(a, s) <= IntOf(b, s))
    ensures var s := a.signed && b.signed;
      if Known(a) && Known(b) then Holds(r, if IntOf(a, s) <= IntOf(b, s) then 1 else 0, 1, false) else AllX(r, 1)
  {
    hide ToU64, ToI64, IntOf, HasXz, AllUnknown, FromU64, AllX;
    AllUnknownIsX(1);
    TruthHolds();
    HasXzIff(a);
    HasXzIff(b);
    if HasXz(a) || HasXz(b) { return AllUnknown(1); }
    if a.width > 64 || b.width > 64 {
      var o := WideCmp(a, b);
      return Truth(o != Greater);
    }
    if a.signed && b.signed {
      ToI64Value(a);
      ToI64Value(b);
      r := Truth(ToI64(a) <= ToI64(b));
    } else {
      NarrowUnsigned(a);
      NarrowUnsigned(b);
      r := Truth(ToU64(a) <= ToU64(b));
    }
  }
}
