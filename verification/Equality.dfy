module Equality {
  // Logical operators and equality between values, with what they are exact about.

  import opened WordBits
  import opened WordVec
  import opened Planes
  import opened Values
  import opened ValueArith
  import opened ValueMove
  import opened FourState
  import opened Abstraction
  import opened Reductions

  /* ---- logical operators ---- */

  /** `is_nonzero`: a known 1 anywhere is true; x only while no bit decides. */
  method Truthy(v: Value) returns (t: LogicBit)
    requires Valid(v)
    ensures t == OrVerdict(v)
  {
    hide Somewhere, AnyUnknown;
    var hit, anyX := Scan(v, One);
    t := if hit then One else if anyX then X else Zero;
  }

  datatype Connective = LAnd | LOr | LImpl | LEquiv

  /** The connectives on truth values. */
  function Connect(c: Connective, x: LogicBit, y: LogicBit): LogicBit {
    match c
    case LAnd => if x == One && y == One then One else if x == Zero || y == Zero then Zero else X
    case LOr => if x == One || y == One then One else if x == Zero && y == Zero then Zero else X
    case LImpl => if x == Zero || y == One then One else if x == One && y == Zero then Zero else X
    case LEquiv => if UnknownBit(x) || UnknownBit(y) then X else if x == y then One else Zero
  }

  predicate Classical(c: Connective, x: bool, y: bool) {
    match c
    case LAnd => x && y
    case LOr => x || y
    case LImpl => x ==> y
    case LEquiv => x == y
  }

  /** `logic_and`, `logic_or`, `logic_impl`, `logic_equiv`. */
  method Logic(c: Connective, a: Value, b: Value) returns (r: Value)
    requires Valid(a) && Valid(b)
    ensures r == Verdict(Connect(c, OrVerdict(a), OrVerdict(b))) && IsBit(r, Connect(c, OrVerdict(a), OrVerdict(b)))
    ensures GetBit(r, 0) == One <==>
      forall m: nat, n: nat :: Resolves(m, a) && Resolves(n, b) ==> Classical(c, m != 0, n != 0)
    ensures GetBit(r, 0) == Zero <==>
      forall m: nat, n: nat :: Resolves(m, a) && Resolves(n, b) ==> !Classical(c, m != 0, n != 0)
  {
    hide Verdict, OrVerdict, GetBit, Resolves;
    LogicExact(c, a, b);
    VerdictIs(Connect(c, OrVerdict(a), OrVerdict(b)));
    var x := Truthy(a);
    var y := Truthy(b);
    r := Verdict(Connect(c, x, y));
  }

  method LogicNot(a: Value) returns (r: Value)
    requires Valid(a)
    ensures r == Verdict(NotBit(OrVerdict(a))) && IsBit(r, NotBit(OrVerdict(a)))
    ensures GetBit(r, 0) == One <==> forall n: nat :: Resolves(n, a) ==> n == 0
    ensures GetBit(r, 0) == Zero <==> forall n: nat :: Resolves(n, a) ==> n != 0
  {
    hide Verdict, GetBit, Resolves, Somewhere, AnyUnknown;
    OrExact(a);
    VerdictIs(NotBit(OrVerdict(a)));
    var x := Truthy(a);
    r := Verdict(NotBit(x));
  }

  /** A resolution whose truth is `bit` when the verdict leaves it open. */
  lemma TruthWitness(v: Value, bit: bool) returns (n: nat)
    requires Valid(v)
    ensures Resolves(n, v)
    ensures match OrVerdict(v) case One => n != 0 case Zero => n == 0 case _ => (n != 0) == bit
  {
    hide Resolves, Somewhere, AnyUnknown;
    OrExact(v);
    Extremes(v);
    n := LowRes(v);
    if OrVerdict(v) == X {
      if bit { n :| Resolves(n, v) && n != 0; } else { n :| Resolves(n, v) && n == 0; }
    }
  }

  /** Connectives over vectors are sound and exact. */
  lemma {:induction false} LogicExact(c: Connective, a: Value, b: Value)
    requires Valid(a) && Valid(b)
    ensures Connect(c, OrVerdict(a), OrVerdict(b)) == One <==>
      forall m: nat, n: nat :: Resolves(m, a) && Resolves(n, b) ==> Classical(c, m != 0, n != 0)
    ensures Connect(c, OrVerdict(a), OrVerdict(b)) == Zero <==>
      forall m: nat, n: nat :: Resolves(m, a) && Resolves(n, b) ==> !Classical(c, m != 0, n != 0)
  {
    hide Resolves, Somewhere, AnyUnknown;
    OrExact(a);
    OrExact(b);
    var m0 := TruthWitness(a, false);
    var m1 := TruthWitness(a, true);
    var n0 := TruthWitness(b, false);
    var n1 := TruthWitness(b, true);
  }

  /* ---- equality ---- */

  /** Bit `i` of `v` in a comparison at a wider width. */
  function ExtBit(v: Value, s: bool, i: nat): LogicBit {
    if i < v.width then GetBit(v, i)
    else if s && v.width > 0 then GetBit(v, v.width - 1)
    else Zero
  }

  predicate Clash(x: LogicBit, y: LogicBit) {
    !UnknownBit(x) && !UnknownBit(y) && x != y
  }

  predicate ClashAt(a: Value, b: Value, i: nat) {
    Clash(ExtBit(a, a.signed && b.signed, i), ExtBit(b, a.signed && b.signed, i))
  }

  ghost predicate Mismatch(a: Value, b: Value) {
    exists i: nat :: i < Max(a.width, b.width) && ClashAt(a, b, i)
  }

  /** What `==` reports. */
  ghost function EqVerdict(a: Value, b: Value): LogicBit {
    if Mismatch(a, b) then Zero else if AnyUnknown(a) || AnyUnknown(b) then X else One
  }

  lemma UnknownIs(v: Value, i: nat)
    ensures UnknownBit(GetBit(v, i)) <==> i < v.width && XBit(v, i)
  {}

  lemma HasXzMeans(v: Value)
    requires Valid(v)
    ensures HasXz(v) <==> AnyUnknown(v)
  {
    hide Bit, VBit, XBit, XzPlane, GetBit;
    HasXzIff(v);
    BitViews(v);
    var n, w := XzPlane(v), v.width;
    ZeroIff(n, w);
    forall i: nat | i < w ensures Bit(n, i) <==> GetBit(v, i) == X || GetBit(v, i) == Z {
      UnknownIs(v, i);
    }
  }

  /** The per-bit loop for operands with unknown bits. */
  method FindMismatch(a: Value, b: Value) returns (found: bool)
    ensures found <==> Mismatch(a, b)
  {
    hide ClashAt;
    for i := 0 to Max(a.width, b.width)
      invariant forall k: nat :: k < i ==> !ClashAt(a, b, k)
    {
      if ClashAt(a, b, i) { return true; }
    }
    return false;
  }

  /* ---- the integers two extended bit patterns denote ---- */

  /** Bit `i` of the `w`-bit number `n` extended without end. */
  ghost predicate NumBit(n: nat, w: nat, s: bool, i: nat) {
    if i < w then Bit(n, i) else s && w > 0 && Bit(n, w - 1)
  }

  ghost predicate SamePattern(m: nat, wa: nat, n: nat, wb: nat, s: bool) {
    forall i: nat :: i < Max(wa, wb) ==> NumBit(m, wa, s, i) == NumBit(n, wb, s, i)
  }

  /** The low `w` bits of the extension. */
  lemma Extension(n: nat, k: nat, s: bool, w: nat) returns (e: nat)
    requires n < Pow2(k) && k <= w
    ensures e < Pow2(w) && Signed(n, k, s) == e - (if Signed(n, k, s) < 0 then Pow2(w) else 0)
    ensures forall i: nat :: i < w ==> Bit(e, i) == NumBit(n, k, s, i)
    ensures Signed(n, k, s) < 0 <==> s && k > 0 && Bit(n, k - 1)
  {
    hide Bit, Pow2, Filled;
    Pow2Mono(k, w);
    HighBitsClear(n, k);
    if s && k > 0 && Bit(n, k - 1) {
      SignFill(n, k, w);
      e := Filled(n, k, w);
    } else {
      e := n;
    }
  }

  /** Two patterns denote one integer exactly when their extensions agree. */
  lemma SameInteger(m: nat, wa: nat, n: nat, wb: nat, s: bool)
    requires m < Pow2(wa) && n < Pow2(wb)
    ensures Signed(m, wa, s) == Signed(n, wb, s) <==> SamePattern(m, wa, n, wb, s)
  {
    hide Bit, Pow2, Signed;
    var w := Max(wa, wb);
    var x := Extension(m, wa, s, w);
    var y := Extension(n, wb, s, w);
    if SamePattern(m, wa, n, wb, s) {
      forall i: nat | i < w ensures Bit(x, i) == Bit(y, i) {
        assert NumBit(m, wa, s, i) == NumBit(n, wb, s, i);
      }
      SameBits(x, y, w);
      if w > 0 { assert NumBit(m, wa, s, w - 1) == NumBit(n, wb, s, w - 1); }
    }
    if Signed(m, wa, s) == Signed(n, wb, s) {
      assert x == y;
      forall i: nat | i < w ensures NumBit(m, wa, s, i) == NumBit(n, wb, s, i) {
        assert Bit(x, i) == NumBit(m, wa, s, i);
      }
    }
  }

  /** A resolution shows every known bit of the extended operand. */
  lemma ResolvedExt(n: nat, v: Value, s: bool, i: nat)
    requires Resolves(n, v)
    ensures ExtBit(v, s, i) == One ==> NumBit(n, v.width, s, i)
    ensures ExtBit(v, s, i) == Zero ==> !NumBit(n, v.width, s, i)
  {
    hide Bit, GetBit, Resolves;
    ResolvedBit(n, v, i);
    if v.width > 0 { ResolvedBit(n, v, v.width - 1); }
  }

  lemma KnownExt(v: Value, s: bool, i: nat)
    requires !AnyUnknown(v)
    ensures !UnknownBit(ExtBit(v, s, i))
  {
    hide GetBit;
    if i < v.width {
      assert GetBit(v, i) != X && GetBit(v, i) != Z;
    } else if s && v.width > 0 {
      assert GetBit(v, v.width - 1) != X && GetBit(v, v.width - 1) != Z;
    }
  }

  /** The two operands resolved to `m` and `n` compare equal. */
  ghost predicate EqualAs(a: Value, m: nat, b: Value, n: nat) {
    Signed(m, a.width, a.signed && b.signed) == Signed(n, b.width, a.signed && b.signed)
  }

  /** A clash makes every pair of resolutions differ. */
  lemma ClashDiffers(a: Value, m: nat, b: Value, n: nat)
    requires Resolves(m, a) && Resolves(n, b) && Mismatch(a, b)
    ensures !EqualAs(a, m, b, n)
  {
    hide Bit, GetBit, Signed, NumBit, ExtBit, Pow2;
    var s := a.signed && b.signed;
    var i: nat :| i < Max(a.width, b.width) && ClashAt(a, b, i);
    ResolvedExt(m, a, s, i);
    ResolvedExt(n, b, s, i);
    assert NumBit(m, a.width, s, i) != NumBit(n, b.width, s, i);
    SameInteger(m, a.width, n, b.width, s);
  }

  /** Without unknown bits, no clash is equality. */
  lemma KnownEquals(a: Value, m: nat, b: Value, n: nat)
    requires Resolves(m, a) && Resolves(n, b) && !AnyUnknown(a) && !AnyUnknown(b) && !Mismatch(a, b)
    ensures EqualAs(a, m, b, n)
  {
    hide Bit, GetBit, Signed, NumBit, ExtBit, Pow2, AnyUnknown;
    var s := a.signed && b.signed;
    forall i: nat | i < Max(a.width, b.width) ensures NumBit(m, a.width, s, i) == NumBit(n, b.width, s, i) {
      assert !ClashAt(a, b, i);
      KnownExt(a, s, i);
      KnownExt(b, s, i);
      ResolvedExt(m, a, s, i);
      ResolvedExt(n, b, s, i);
    }
    SameInteger(m, a.width, n, b.width, s);
  }

  lemma OwnResolution(v: Value)
    requires Known(v)
    ensures Resolves(ValPlane(v), v)
  {
    hide Bit, VBit, XBit, Pow2, ValPlane;
    BitViews(v);
  }

  lemma KnownMeans(v: Value)
    requires Valid(v)
    ensures !HasXz(v) <==> Known(v)
    ensures Known(v) <==> !AnyUnknown(v)
  {
    hide HasXz, AnyUnknown;
    HasXzIff(v);
    HasXzMeans(v);
  }

  /** Known operands denote one integer exactly when nothing clashes. */
  lemma IntEqualIff(a: Value, b: Value)
    requires Known(a) && Known(b)
    ensures var s := a.signed && b.signed; IntOf(a, s) == IntOf(b, s) <==> !Mismatch(a, b)
  {
    hide Mismatch, Resolves, Signed, AnyUnknown;
    KnownMeans(a);
    KnownMeans(b);
    OwnResolution(a);
    OwnResolution(b);
    if Mismatch(a, b) { ClashDiffers(a, ValPlane(a), b, ValPlane(b)); }
    else { KnownEquals(a, ValPlane(a), b, ValPlane(b)); }
  }

  /* ---- `==` ---- */

  /** The operand as `is_equal` widens it: sign-filled only when both are signed. */
  method Widened(v: Value, s: bool, w: nat) returns (r: Value)
    requires Known(v) && (s ==> v.signed) && v.width <= w <= 64 && w > 0
    ensures Known(r) && r.width == w
    ensures forall i: nat :: i < w ==> Bit(ValPlane(r), i) == NumBit(ValPlane(v), v.width, s, i)
  {
    hide Bit, VBit, XBit, Pow2, ValPlane, XzPlane;
    SignIsFlag(v, s);
    BitViews(v);
    BitsOfZero();
    r := Resize(v.(signed := s), w);
    BitViews(r);
    ZeroIff(XzPlane(r), w);
    BitViews(v.(signed := s));
  }

  method IsEqual(a: Value, b: Value) returns (r: Value)
    requires Valid(a) && Valid(b)
    ensures r == Verdict(EqVerdict(a, b)) && IsBit(r, EqVerdict(a, b))
    ensures GetBit(r, 0) == One <==> AlwaysEqual(a, b)
    ensures GetBit(r, 0) == Zero ==> NeverEqual(a, b)
    ensures (GetBit(r, 0) == Zero <==> NeverEqual(a, b)) <==> (Mismatch(a, b) || !Straddled(a, b))
  {
    EqExact(a, b);
    VerdictIs(EqVerdict(a, b));
    hide AlwaysEqual, NeverEqual, Straddled, GetBit, Resolves;
    hide Mismatch, HasXz, AnyUnknown, IntOf, ToU64, Bit, Pow2, ValPlane, FromU64, AllUnknown;
    KnownMeans(a);
    KnownMeans(b);
    if HasXz(a) || HasXz(b) {
      var differ := FindMismatch(a, b);
      return if differ then Truth(false) else AllUnknown(1);
    }
    IntEqualIff(a, b);
    if a.width > 64 || b.width > 64 {
      var o := WideCmp(a, b);
      return Truth(o == Ordering.Equal);
    }
    if a.width != b.width {
      var w, s := Max(a.width, b.width), a.signed && b.signed;
      var x := Widened(a, s, w);
      var y := Widened(b, s, w);
      SamePatternWords(a, b, x, y, w, s);
      KnownWord0(x);
      KnownWord0(y);
      return Truth(ToU64(x) == ToU64(y));
    }
    KnownWord0(a);
    KnownWord0(b);
    SameWidthInts(a, b);
    r := Truth(ToU64(a) == ToU64(b));
  }

  lemma SamePatternWords(a: Value, b: Value, x: Value, y: Value, w: nat, s: bool)
    requires Known(a) && Known(b) && Known(x) && Known(y) && x.width == y.width == w == Max(a.width, b.width)
    requires forall i: nat :: i < w ==> Bit(ValPlane(x), i) == NumBit(ValPlane(a), a.width, s, i)
    requires forall i: nat :: i < w ==> Bit(ValPlane(y), i) == NumBit(ValPlane(b), b.width, s, i)
    ensures ValPlane(x) == ValPlane(y) <==> IntOf(a, s) == IntOf(b, s)
  {
    hide Bit, NumBit, Pow2, ValPlane, Signed;
    SameInteger(ValPlane(a), a.width, ValPlane(b), b.width, s);
    if SamePattern(ValPlane(a), a.width, ValPlane(b), b.width, s) {
      forall i: nat | i < w ensures Bit(ValPlane(x), i) == Bit(ValPlane(y), i) {
        assert NumBit(ValPlane(a), a.width, s, i) == NumBit(ValPlane(b), b.width, s, i);
      }
      SameBits(ValPlane(x), ValPlane(y), w);
    }
    if ValPlane(x) == ValPlane(y) {
      forall i: nat | i < w
        ensures NumBit(ValPlane(a), a.width, s, i) == NumBit(ValPlane(b), b.width, s, i)
      {
        assert Bit(ValPlane(x), i) == NumBit(ValPlane(a), a.width, s, i);
      }
    }
  }

  lemma SameWidthInts(a: Value, b: Value)
    requires Known(a) && Known(b) && a.width == b.width
    ensures var s := a.signed && b.signed; IntOf(a, s) == IntOf(b, s) <==> ValPlane(a) == ValPlane(b)
  {
    hide Bit, Pow2, ValPlane;
    var s := a.signed && b.signed;
    var x := Extension(ValPlane(a), a.width, s, a.width);
    var y := Extension(ValPlane(b), b.width, s, b.width);
  }

  /* ---- what `==` is exact about ---- */

  ghost predicate SpanRead(v: Value, lo: nat, bit: LogicBit) {
    exists i: nat :: lo <= i < v.width && GetBit(v, i) == bit
  }

  /** The narrow operand's unknown sign would have to be 0 and 1 at once to match. */
  ghost predicate Torn(narrow: Value, wide: Value) {
    && 0 < narrow.width < wide.width
    && UnknownBit(GetBit(narrow, narrow.width - 1))
    && SpanRead(wide, narrow.width - 1, One) && SpanRead(wide, narrow.width - 1, Zero)
  }

  ghost predicate Straddled(a: Value, b: Value) {
    a.signed && b.signed && (Torn(a, b) || Torn(b, a))
  }

  ghost predicate AlwaysEqual(a: Value, b: Value) {
    forall m: nat, n: nat :: Resolves(m, a) && Resolves(n, b) ==> EqualAs(a, m, b, n)
  }

  ghost predicate NeverEqual(a: Value, b: Value) {
    forall m: nat, n: nat :: Resolves(m, a) && Resolves(n, b) ==> !EqualAs(a, m, b, n)
  }

  /** `==` is sound; it is exact but for a sign extension torn between 0 and 1. */
  lemma {:induction false} EqExact(a: Value, b: Value)
    requires Valid(a) && Valid(b)
    ensures EqVerdict(a, b) == One <==> AlwaysEqual(a, b)
    ensures EqVerdict(a, b) == Zero ==> NeverEqual(a, b)
    ensures (EqVerdict(a, b) == Zero <==> NeverEqual(a, b)) <==> (Mismatch(a, b) || !Straddled(a, b))
  {
    hide Resolves, EqualAs, Mismatch, AnyUnknown, Straddled, LowRes, HighRes, Valid;
    Extremes(a);
    Extremes(b);
    forall m: nat, n: nat | Resolves(m, a) && Resolves(n, b)
      ensures Mismatch(a, b) ==> !EqualAs(a, m, b, n)
      ensures EqVerdict(a, b) == One ==> EqualAs(a, m, b, n)
      ensures Straddled(a, b) ==> !EqualAs(a, m, b, n)
    {
      if Mismatch(a, b) { ClashDiffers(a, m, b, n); }
      if EqVerdict(a, b) == One { KnownEquals(a, m, b, n); }
      if Straddled(a, b) { TornDiffers(a, m, b, n); }
    }
    if EqVerdict(a, b) == X {
      var m, n, m', n' := TwoDifferent(a, b);
      if !Straddled(a, b) { var p, q := EqualWitness(a, b); }
    }
  }

  lemma TornSide(m: nat, v: Value, n: nat, u: Value)
    requires Resolves(m, v) && Resolves(n, u) && Torn(v, u)
    ensures !SamePattern(m, v.width, n, u.width, true)
  {
    hide Bit, GetBit, Resolves, Pow2;
    var k := v.width - 1;
    var i: nat :| k <= i < u.width && GetBit(u, i) == One;
    var j: nat :| k <= j < u.width && GetBit(u, j) == Zero;
    ResolvedBit(n, u, i);
    ResolvedBit(n, u, j);
    assert NumBit(m, v.width, true, i) == Bit(m, k) && NumBit(m, v.width, true, j) == Bit(m, k);
    assert NumBit(n, u.width, true, i) && !NumBit(n, u.width, true, j);
  }

  lemma TornDiffers(a: Value, m: nat, b: Value, n: nat)
    requires Resolves(m, a) && Resolves(n, b) && Straddled(a, b)
    ensures !EqualAs(a, m, b, n)
  {
    hide Signed, SamePattern, Torn;
    SameInteger(m, a.width, n, b.width, true);
    if Torn(a, b) {
      TornSide(m, a, n, b);
    } else {
      TornSide(n, b, m, a);
      SameInteger(n, b.width, m, a.width, true);
    }
  }

  /** An unknown bit shown both ways gives two integers. */
  lemma TwoIntegers(v: Value, s: bool)
    requires Valid(v) && AnyUnknown(v)
    ensures Signed(LowRes(v), v.width, s) != Signed(HighRes(v), v.width, s)
  {
    hide Bit, GetBit, Resolves, Pow2, LowRes, HighRes, Signed;
    var i: nat :| i < v.width && (GetBit(v, i) == X || GetBit(v, i) == Z);
    BothWays(v, i);
    LowHighFit(v);
    SameInteger(LowRes(v), v.width, HighRes(v), v.width, s);
    assert NumBit(LowRes(v), v.width, s, i) != NumBit(HighRes(v), v.width, s, i);
  }

  lemma LowHighFit(v: Value)
    requires Valid(v)
    ensures LowRes(v) < Pow2(v.width) && HighRes(v) < Pow2(v.width)
  {
    hide Bit, VBit, XBit, LowRes, HighRes;
    Extremes(v);
  }

  lemma TwoDifferent(a: Value, b: Value) returns (m: nat, n: nat, m': nat, n': nat)
    requires Valid(a) && Valid(b) && (AnyUnknown(a) || AnyUnknown(b))
    ensures Resolves(m, a) && Resolves(n, b) && Resolves(m', a) && Resolves(n', b)
    ensures EqualAs(a, m, b, n) ==> !EqualAs(a, m', b, n')
  {
    hide Resolves, AnyUnknown, LowRes, HighRes, Signed;
    Extremes(a);
    Extremes(b);
    m, n := LowRes(a), LowRes(b);
    if AnyUnknown(a) {
      m', n' := HighRes(a), n;
      TwoIntegers(a, a.signed && b.signed);
    } else {
      m', n' := m, HighRes(b);
      TwoIntegers(b, a.signed && b.signed);
    }
  }

  /** The `w`-bit number with the bits `t`. */
  ghost function Number(t: nat -> bool, w: nat): nat {
    if w == 0 then 0 else Number(t, w - 1) + (if t(w - 1) then 1 else 0) * Pow2(w - 1)
  }

  lemma {:induction false} NumberBits(t: nat -> bool, w: nat)
    ensures Number(t, w) < Pow2(w) && forall i: nat :: Bit(Number(t, w), i) == (i < w && t(i))
  {
    if w == 0 {
      BitsOfZero();
    } else {
      NumberBits(t, w - 1);
      hide Bit;
      var top: nat := if t(w - 1) then 1 else 0;
      BitsOfZero();
      OneBit(top);
      var r := Number(t, w - 1) + top * Pow2(w - 1);
      BitsOfSumAt(r, Number(t, w - 1), top, w - 1);
      forall i: nat ensures Bit(r, i) == (i < w && t(i)) {}
      BoundFromBits(r, w);
    }
  }

  /** A bit pattern that both extended operands allow at every position. */
  ghost predicate Allowed(t: nat -> bool, v: Value, s: bool, w: nat) {
    && (forall i: nat :: i < v.width ==> (GetBit(v, i) == One ==> t(i)) && (GetBit(v, i) == Zero ==> !t(i)))
    && (forall i: nat :: v.width <= i < w ==> t(i) == (s && v.width > 0 && t(v.width - 1)))
  }

  lemma AllowedResolves(t: nat -> bool, v: Value, s: bool, w: nat)
    requires Valid(v) && v.width <= w && Allowed(t, v, s, w)
    ensures Resolves(Number(t, v.width), v)
    ensures forall i: nat :: i < w ==> NumBit(Number(t, v.width), v.width, s, i) == t(i)
  {
    hide Bit, Pow2, Number, VBit, XBit;
    NumberBits(t, v.width);
    var n := Number(t, v.width);
    forall i: nat | i < v.width && !XBit(v, i) ensures Bit(n, i) == VBit(v, i) {
      assert GetBit(v, i) == if VBit(v, i) then One else Zero;
    }
  }

  lemma FromPattern(t: nat -> bool, a: Value, b: Value) returns (m: nat, n: nat)
    requires Valid(a) && Valid(b)
    requires Allowed(t, a, a.signed && b.signed, Max(a.width, b.width))
    requires Allowed(t, b, a.signed && b.signed, Max(a.width, b.width))
    ensures Resolves(m, a) && Resolves(n, b) && EqualAs(a, m, b, n)
  {
    hide Bit, Pow2, Number, Allowed, NumBit, GetBit, Signed;
    var s, w := a.signed && b.signed, Max(a.width, b.width);
    m, n := Number(t, a.width), Number(t, b.width);
    AllowedResolves(t, a, s, w);
    AllowedResolves(t, b, s, w);
    SameInteger(m, a.width, n, b.width, s);
  }

  /** The pattern that takes every known bit, and one sign for a torn-free extension. */
  ghost function Pattern(v: Value, u: Value, s: bool, i: nat): bool {
    if s && 0 < v.width && v.width - 1 <= i && UnknownBit(GetBit(v, v.width - 1)) then SpanRead(u, v.width - 1, One)
    else if !UnknownBit(ExtBit(v, s, i)) then ExtBit(v, s, i) == One
    else ExtBit(u, s, i) == One
  }

  lemma PatternAllowed(v: Value, u: Value, s: bool)
    requires Valid(v) && Valid(u) && v.width <= u.width && s == (v.signed && u.signed)
    requires !Mismatch(v, u) && !(s && Torn(v, u))
    ensures Allowed((i: nat) => Pattern(v, u, s, i), v, s, u.width) && Allowed((i: nat) => Pattern(v, u, s, i), u, s, u.width)
  {
    hide GetBit, Valid;
    forall i: nat | i < u.width
      ensures GetBit(u, i) == One ==> Pattern(v, u, s, i)
      ensures GetBit(u, i) == Zero ==> !Pattern(v, u, s, i)
      ensures i < v.width && GetBit(v, i) == One ==> Pattern(v, u, s, i)
      ensures i < v.width && GetBit(v, i) == Zero ==> !Pattern(v, u, s, i)
      ensures v.width <= i ==> Pattern(v, u, s, i) == (s && v.width > 0 && Pattern(v, u, s, v.width - 1))
    {
      assert !ClashAt(v, u, i);
    }
  }

  lemma MismatchSymmetric(a: Value, b: Value)
    ensures Mismatch(a, b) == Mismatch(b, a)
  {
    hide ExtBit;
    if Mismatch(a, b) {
      var i: nat :| i < Max(a.width, b.width) && ClashAt(a, b, i);
      assert ClashAt(b, a, i);
    }
    if Mismatch(b, a) {
      var i: nat :| i < Max(a.width, b.width) && ClashAt(b, a, i);
      assert ClashAt(a, b, i);
    }
  }

  lemma EqualWitness(a: Value, b: Value) returns (m: nat, n: nat)
    requires Valid(a) && Valid(b) && !Mismatch(a, b) && !Straddled(a, b)
    ensures Resolves(m, a) && Resolves(n, b) && EqualAs(a, m, b, n)
  {
    hide Resolves, Mismatch, Torn, Allowed, Pattern;
    var s := a.signed && b.signed;
    MismatchSymmetric(a, b);
    if a.width <= b.width {
      PatternAllowed(a, b, s);
      m, n := FromPattern((i: nat) => Pattern(a, b, s, i), a, b);
    } else {
      PatternAllowed(b, a, s);
      m, n := FromPattern((i: nat) => Pattern(b, a, s, i), a, b);
    }
  }

  /** `1'sbx == 2'sb01` reads x although neither resolution of the x is equal. */
  lemma {:induction false} EqCounterexample()
    ensures var a, b := Value(Inline(0, 1), 1, true), Value(Inline(1, 0), 2, true);
      Valid(a) && Valid(b) && EqVerdict(a, b) == X && NeverEqual(a, b)
  {
    var a, b := Value(Inline(0, 1), 1, true), Value(Inline(1, 0), 2, true);
    assert Pow2(1) == 2 && Pow2(2) == 4;
    assert !Bit(0, 0) && Bit(1, 0) && !Bit(1, 1) && !Bit(0, 1);
    assert GetBit(a, 0) == X && GetBit(b, 0) == One && GetBit(b, 1) == Zero;
    hide GetBit, Bit, Pow2;
    assert !Mismatch(a, b);
    assert SpanRead(b, 0, One) && SpanRead(b, 0, Zero);
    EqExact(a, b);
    forall m: nat, n: nat | Resolves(m, a) && Resolves(n, b) ensures !EqualAs(a, m, b, n) { TornDiffers(a, m, b, n); }
  }

  /** A comparison's truth value as a bit. */
  lemma TruthIs(t: bool)
    ensures IsBit(Truth(t), if t then One else Zero)
  {
    hide FromU64, IsBit;
    KnownBitIs(0);
    KnownBitIs(1);
  }

  /* ---- case equality ---- */

  /** `===`, and the two wildcard comparisons of case statements. */
  datatype CaseKind = Exact | CaseZ | CaseX

  predicate Wild(k: CaseKind, b: LogicBit) {
    match k
    case Exact => false
    case CaseZ => b == Z
    case CaseX => UnknownBit(b)
  }

  predicate AgreesAt(k: CaseKind, a: Value, b: Value, i: nat) {
    var x, y := ExtBit(a, a.signed && b.signed, i), ExtBit(b, a.signed && b.signed, i);
    Wild(k, x) || Wild(k, y) || x == y
  }

  ghost predicate Matches(k: CaseKind, a: Value, b: Value) {
    forall i: nat :: i < Max(a.width, b.width) ==> AgreesAt(k, a, b, i)
  }

  /** A plane word with its sign bit replicated up to `w`. */
  function SignSpread(word: Word, width: nat, w: nat, s: bool): Word
    requires width <= 64
  {
    if s && 0 < width < w && And64(word, Shl64(1, width - 1)) != 0
    then Or64(word, And64(Mask(w), Not64(Mask(width)))) else word
  }

  /** Bit `i` of a plane word read through the sign extension. */
  ghost predicate SpreadBit(word: Word, width: nat, s: bool, i: nat) {
    if i < width then Bit(word, i) else s && width > 0 && Bit(word, width - 1)
  }

  lemma SignSpreadBits(word: Word, width: nat, w: nat, s: bool)
    requires width <= w <= 64 && forall i: nat :: i >= width ==> !Bit(word, i)
    ensures forall i: nat :: i < w ==> Bit(SignSpread(word, width, w, s), i) == SpreadBit(word, width, s, i)
  {
    hide Bit, And64, Or64, Not64, Mask, Shl64;
    if width > 0 {
      BoundFromBits(word, width);
      SignTest(word, width);
    }
  }

  lemma SignTest(word: Word, width: nat)
    requires 0 < width <= 64 && word < Pow2(width)
    ensures And64(word, Shl64(1, width - 1)) != 0 <==> Bit(word, width - 1)
  {
    hide Bit, And64, Or64, Not64, Mask, Shl64, Pow2;
    ShiftedOne(width - 1);
    var t := And64(word, Shl64(1, width - 1));
    if Bit(word, width - 1) {
      assert Bit(t, width - 1);
      ZeroBit(width - 1);
    } else {
      forall k: nat ensures !Bit(t, k) {}
      BoundFromBits(t, 0);
      PowZero();
    }
  }

  lemma PowZero() ensures Pow2(0) == 1 {}

  /** The mask of positions where neither operand's code is a wildcard. */
  function WildWord(k: CaseKind, av: Word, ax: Word, bv: Word, bx: Word): Word {
    match k
    case Exact => 0
    case CaseZ => Or64(And64(av, ax), And64(bv, bx))
    case CaseX => Or64(ax, bx)
  }

  function Differs(k: CaseKind, av: Word, ax: Word, bv: Word, bx: Word, m: Word): Word {
    And64(And64(Or64(Xor64(av, bv), Xor64(ax, bx)), Not64(WildWord(k, av, ax, bv, bx))), m)
  }

  lemma DiffersBit(k: CaseKind, av: Word, ax: Word, bv: Word, bx: Word, m: Word, i: nat)
    requires i < 64
    ensures var x, y := ToLogic(Bit(av, i), Bit(ax, i)), ToLogic(Bit(bv, i), Bit(bx, i));
      Bit(Differs(k, av, ax, bv, bx, m), i) <==> Bit(m, i) && !(Wild(k, x) || Wild(k, y) || x == y)
  {
    hide Bit, And64, Or64, Not64, Xor64;
    BitsOfZero();
  }

  /** Both planes of a narrow operand read its extended bits. */
  lemma SpreadReads(v: Value, s: bool, w: nat)
    requires Valid(v) && v.width <= w <= 64
    ensures forall i: nat :: i < w ==>
      ToLogic(Bit(SignSpread(v.storage.val, v.width, w, s), i), Bit(SignSpread(v.storage.xz, v.width, w, s), i))
        == ExtBit(v, s, i)
  {
    hide Bit, SignSpread, VBit, XBit;
    HighClear(v);
    InlineBits(v);
    SignSpreadBits(v.storage.val, v.width, w, s);
    SignSpreadBits(v.storage.xz, v.width, w, s);
  }

  lemma DiffersIff(k: CaseKind, a: Value, b: Value, av: Word, ax: Word, bv: Word, bx: Word)
    requires Max(a.width, b.width) <= 64
    requires forall i: nat :: i < Max(a.width, b.width) ==>
               ToLogic(Bit(av, i), Bit(ax, i)) == ExtBit(a, a.signed && b.signed, i)
    requires forall i: nat :: i < Max(a.width, b.width) ==>
               ToLogic(Bit(bv, i), Bit(bx, i)) == ExtBit(b, a.signed && b.signed, i)
    ensures Differs(k, av, ax, bv, bx, Mask(Max(a.width, b.width))) == 0 <==> Matches(k, a, b)
  {
    hide Bit, Differs, Mask, ExtBit, Wild, ToLogic;
    var w := Max(a.width, b.width);
    var d := Differs(k, av, ax, bv, bx, Mask(w));
    forall i: nat ensures Bit(d, i) <==> i < w && !AgreesAt(k, a, b, i) {
      if i < 64 { DiffersBit(k, av, ax, bv, bx, Mask(w), i); } else { WordHighBits(d); }
    }
    if d == 0 { BitsOfZero(); }
    if Matches(k, a, b) {
      forall i: nat ensures !Bit(d, i) {}
      BoundFromBits(d, 0);
      PowZero();
    }
  }

  /** `case_eq`, `casez_eq`, `casex_eq`: word algebra on inline operands, a bit loop otherwise. */
  method CaseCompare(k: CaseKind, a: Value, b: Value) returns (r: Value)
    requires Valid(a) && Valid(b)
    ensures r == FromU64(if Matches(k, a, b) then 1 else 0, 1) && IsBit(r, if Matches(k, a, b) then One else Zero)
  {
    hide IsBit;
    KnownBitIs(0);
    KnownBitIs(1);
    hide Differs, SignSpread, AgreesAt, ExtBit, Bit, FromU64, Mask;
    var w, s := Max(a.width, b.width), a.signed && b.signed;
    if a.storage.Inline? && b.storage.Inline? {
      var av, ax := SignSpread(a.storage.val, a.width, w, s), SignSpread(a.storage.xz, a.width, w, s);
      var bv, bx := SignSpread(b.storage.val, b.width, w, s), SignSpread(b.storage.xz, b.width, w, s);
      SpreadReads(a, s, w);
      SpreadReads(b, s, w);
      DiffersIff(k, a, b, av, ax, bv, bx);
      return Truth(Differs(k, av, ax, bv, bx, Mask(w)) == 0);
    }
    for i := 0 to w
      invariant forall j: nat :: j < i ==> AgreesAt(k, a, b, j)
    {
      if !AgreesAt(k, a, b, i) {
        return Truth(false);
      }
    }
    r := Truth(true);
  }

  /** `casex` matches exactly when no known bits clash, so it fails exactly when `==` reports 0. */
  lemma {:induction false} CaseXMeans(a: Value, b: Value)
    ensures Matches(CaseX, a, b) <==> !Mismatch(a, b)
  {
    hide ExtBit;
    forall i: nat ensures AgreesAt(CaseX, a, b, i) <==> !ClashAt(a, b, i) {}
  }

  /** `t` is the bit `x` with a wildcard of the comparison filled in. */
  predicate FillsIn(k: CaseKind, t: LogicBit, x: LogicBit) {
    match k
    case Exact => t == x
    case CaseZ => x == Z || t == x
    case CaseX => x == X || x == Z || t == x
  }

  /** One bit fills in both operands' bits at `i`. */
  ghost predicate FillsAt(k: CaseKind, a: Value, b: Value, i: nat) {
    var x, y := ExtBit(a, a.signed && b.signed, i), ExtBit(b, a.signed && b.signed, i);
    exists t :: FillsIn(k, t, x) && FillsIn(k, t, y)
  }

  /** Every comparison matches exactly when both operands' wildcards can be filled in alike: z for `casez`, x and z for `casex`. */
  lemma {:induction false} CaseFills(k: CaseKind, a: Value, b: Value)
    ensures Matches(k, a, b) <==> forall i: nat :: i < Max(a.width, b.width) ==> FillsAt(k, a, b, i)
  {
    hide ExtBit;
    forall i: nat ensures AgreesAt(k, a, b, i) <==> FillsAt(k, a, b, i) {
      var x, y := ExtBit(a, a.signed && b.signed, i), ExtBit(b, a.signed && b.signed, i);
      if AgreesAt(k, a, b, i) {
        var t := if Wild(k, x) then y else x;
        assert FillsIn(k, t, x) && FillsIn(k, t, y);
      }
    }
  }

  /** The three comparisons only grow more permissive. */
  lemma {:induction false} CaseOrder(a: Value, b: Value)
    ensures Matches(Exact, a, b) ==> Matches(CaseZ, a, b)
    ensures Matches(CaseZ, a, b) ==> Matches(CaseX, a, b)
  {
    hide ExtBit;
    forall i: nat
      ensures AgreesAt(Exact, a, b, i) ==> AgreesAt(CaseZ, a, b, i)
      ensures AgreesAt(CaseZ, a, b, i) ==> AgreesAt(CaseX, a, b, i)
    {}
  }

  /** At one width, `===` is identity of all four-state bits. */
  lemma {:induction false} CaseEqIdentity(a: Value, b: Value)
    requires Valid(a) && Valid(b) && a.width == b.width && a.signed == b.signed
    ensures Matches(Exact, a, b) <==> a == b
  {
    hide VBit, XBit;
    if Matches(Exact, a, b) {
      forall i: nat | i < a.width ensures VBit(a, i) == VBit(b, i) && XBit(a, i) == XBit(b, i) {
        assert AgreesAt(Exact, a, b, i);
      }
      SameValue(a, b);
    }
  }
}
