module Reductions {
  // Reductions, logical operators and equality: one-bit results over whole vectors.

  import opened WordBits
  import opened WordVec
  import opened Planes
  import opened Values
  import opened ValueArith
  import opened ValueMove
  import opened FourState
  import opened Abstraction

  /** A one-bit result. */
  function Verdict(b: LogicBit): Value {
    match b
    case Zero => FromU64(0, 1)
    case One => FromU64(1, 1)
    case _ => AllUnknown(1)
  }

  /** A well-formed unsigned one-bit value that holds `b`, which is not z. */
  ghost predicate IsBit(r: Value, b: LogicBit) {
    && Valid(r) && r.width == 1 && !r.signed && GetBit(r, 0) == b
    && ValPlane(r) == (if b == One then 1 else 0) && XzPlane(r) == if b == X then 1 else 0
  }

  lemma FirstBit(v: Value)
    requires Valid(v) && v.width == 1
    ensures GetBit(v, 0) == ToLogic(ValPlane(v) % 2 == 1, XzPlane(v) % 2 == 1)
  {
    hide VBit, XBit, ValPlane, XzPlane, Pow2;
    BitViews(v);
  }

  lemma PlanesAreBit(v: Value, n: nat, x: nat)
    requires Valid(v) && v.width == 1 && !v.signed && ValPlane(v) == n && XzPlane(v) == x && n + x <= 1
    ensures IsBit(v, if x == 1 then X else if n == 1 then One else Zero)
  {
    hide Valid, ValPlane, XzPlane, GetBit;
    FirstBit(v);
  }

  lemma KnownBitIs(n: nat)
    requires n <= 1
    ensures IsBit(FromU64(n, 1), if n == 1 then One else Zero)
  {
    assert Pow2(1) == 2;
    hide FromU64, GetBit, Pow2;
    FromU64Holds(n, 1);
    SmallMod(n, 2);
    hide Valid, ValPlane, XzPlane, IsBit;
    PlanesAreBit(FromU64(n, 1), n, 0);
  }

  lemma AllXIsBit(v: Value)
    requires AllX(v, 1)
    ensures IsBit(v, X)
  {
    assert Pow2(1) == 2;
    hide Pow2, IsBit, Valid, ValPlane, XzPlane;
    PlanesAreBit(v, 0, 1);
  }

  lemma UnknownBitIs()
    ensures IsBit(AllUnknown(1), X)
  {
    hide AllUnknown, IsBit, AllX;
    AllUnknownIsX(1);
    AllXIsBit(AllUnknown(1));
  }

  lemma VerdictIs(b: LogicBit)
    requires b != Z
    ensures IsBit(Verdict(b), b)
  {
    hide IsBit, FromU64, AllUnknown;
    KnownBitIs(0);
    KnownBitIs(1);
    UnknownBitIs();
  }

  ghost predicate Somewhere(v: Value, b: LogicBit) {
    exists i: nat :: i < v.width && GetBit(v, i) == b
  }

  ghost predicate AnyUnknown(v: Value) {
    Somewhere(v, X) || Somewhere(v, Z)
  }

  /* ---- the specified verdicts ---- */

  ghost function AndVerdict(v: Value): LogicBit {
    if Somewhere(v, Zero) then Zero else if AnyUnknown(v) then X else One
  }

  ghost function OrVerdict(v: Value): LogicBit {
    if Somewhere(v, One) then One else if AnyUnknown(v) then X else Zero
  }

  function CountOnes(n: nat): nat {
    if n == 0 then 0 else n % 2 + CountOnes(n / 2)
  }

  /** The parity of the set bits. */
  predicate Parity(n: nat) { CountOnes(n) % 2 == 1 }

  /** Odd: no bits are even, and every further set bit turns it over. */
  lemma {:induction false} ParityTurns(n: nat, m: nat, k: nat)
    requires forall i: nat :: Bit(m, i) == (i == k || Bit(n, i))
    requires !Bit(n, k)
    ensures !Parity(0) && Parity(m) == !Parity(n)
  {
    CountSet(n, m, k);
  }

  ghost function XorVerdict(v: Value): LogicBit {
    if AnyUnknown(v) then X else if Parity(ValPlane(v)) then One else Zero
  }

  /* ---- words ---- */

  /** A nonzero word has a set bit. */
  lemma SetBitOf(w: Word) returns (k: nat)
    requires w != 0
    ensures k < 64 && Bit(w, k)
  {
    hide Bit;
    WordHighBits(w);
    if forall i: nat :: i < 64 ==> !Bit(w, i) {
      forall i: nat ensures !Bit(w, i) {}
      BoundFromBits(w, 0);
      assert false;
    }
    k :| k < 64 && Bit(w, k);
  }

  /** The words of each plane; a narrow value has one. */
  function PlaneWords(v: Value): (seq<Word>, seq<Word>) {
    match v.storage
    case Inline(val, xz) => ([val], [xz])
    case Wide(vals, xzs) => (vals, xzs)
  }

  /** The live bits of word `i` of a `w`-bit vector. */
  function LiveMask(w: nat, i: nat): Word {
    Mask(Monus(w, 64 * i))
  }

  /** The bits of word `i` that read `b`, all unknown ones when `b` is x. */
  function Matching(v: Value, i: nat, b: LogicBit): Word
    requires i < |PlaneWords(v).0| == |PlaneWords(v).1|
  {
    var val, xz := PlaneWords(v).0[i], PlaneWords(v).1[i];
    var live := LiveMask(v.width, i);
    match b
    case Zero => And64(And64(Not64(val), Not64(xz)), live)
    case One => And64(And64(val, Not64(xz)), live)
    case _ => And64(xz, live)
  }

  predicate Reads(v: Value, p: nat, b: LogicBit) {
    if UnknownBit(b) then UnknownBit(GetBit(v, p)) else GetBit(v, p) == b
  }

  lemma WordCount(v: Value)
    requires Valid(v)
    ensures |PlaneWords(v).0| == |PlaneWords(v).1| >= 1 && v.width <= 64 * |PlaneWords(v).0|
  {}

  lemma MatchingBits(v: Value, i: nat, b: LogicBit, k: nat)
    requires Valid(v) && i < |PlaneWords(v).0| == |PlaneWords(v).1|
    ensures Bit(Matching(v, i, b), k) <==> k < 64 && 64 * i + k < v.width && Reads(v, 64 * i + k, b)
  {
    hide Bit, And64, Not64, Mask;
    if k < 64 { assert (64 * i + k) / 64 == i && (64 * i + k) % 64 == k; }
  }

  /** No live bit of word `i` reads `b`. */
  lemma NoMatch(v: Value, i: nat, b: LogicBit)
    requires Valid(v) && i < |PlaneWords(v).0| == |PlaneWords(v).1| && Matching(v, i, b) == 0
    ensures forall p: nat :: 64 * i <= p < 64 * i + 64 && p < v.width ==> !Reads(v, p, b)
  {
    hide Bit, Matching, Reads;
    forall p: nat | 64 * i <= p < 64 * i + 64 && p < v.width ensures !Reads(v, p, b) {
      MatchingBits(v, i, b, p - 64 * i);
      ZeroBit(p - 64 * i);
    }
  }

  lemma SomeMatch(v: Value, i: nat, b: LogicBit) returns (p: nat)
    requires Valid(v) && i < |PlaneWords(v).0| == |PlaneWords(v).1| && Matching(v, i, b) != 0
    ensures p < v.width && Reads(v, p, b)
  {
    hide Bit, Matching, Reads;
    var k := SetBitOf(Matching(v, i, b));
    MatchingBits(v, i, b, k);
    p := 64 * i + k;
  }

  /** Scan the words for a bit reading `known`, noting whether any is unknown. */
  method Scan(v: Value, known: LogicBit) returns (hit: bool, anyX: bool)
    requires Valid(v) && !UnknownBit(known)
    ensures hit <==> Somewhere(v, known)
    ensures !hit ==> (anyX <==> AnyUnknown(v))
  {
    hide Matching, Bit, GetBit, PlaneWords, Valid;
    WordCount(v);
    var n := |PlaneWords(v).0|;
    anyX := false;
    for i := 0 to n
      invariant forall p: nat :: p < 64 * i && p < v.width ==> !Reads(v, p, known)
      invariant anyX ==> AnyUnknown(v)
      invariant !anyX ==> forall p: nat :: p < 64 * i && p < v.width ==> !Reads(v, p, X)
    {
      if Matching(v, i, known) != 0 {
        ghost var p := SomeMatch(v, i, known);
        return true, anyX;
      }
      NoMatch(v, i, known);
      if Matching(v, i, X) != 0 {
        ghost var p := SomeMatch(v, i, X);
        anyX := true;
      } else {
        NoMatch(v, i, X);
      }
    }
    hit := false;
    forall p: nat | p < v.width ensures GetBit(v, p) != known { assert !Reads(v, p, known); }
    if !anyX {
      forall p: nat | p < v.width ensures !UnknownBit(GetBit(v, p)) { assert !Reads(v, p, X); }
    }
  }

  method ReduceAnd(v: Value) returns (r: Value)
    requires Valid(v)
    ensures r == Verdict(AndVerdict(v)) && IsBit(r, AndVerdict(v))
    ensures GetBit(r, 0) == One <==> forall n: nat :: Resolves(n, v) ==> n == Pow2(v.width) - 1
    ensures GetBit(r, 0) == Zero <==> forall n: nat :: Resolves(n, v) ==> n != Pow2(v.width) - 1
  {
    hide Verdict, Somewhere, AnyUnknown, GetBit, Resolves, Pow2;
    AndExact(v);
    VerdictIs(AndVerdict(v));
    var hit, anyX := Scan(v, Zero);
    r := Verdict(if hit then Zero else if anyX then X else One);
  }

  method ReduceOr(v: Value) returns (r: Value)
    requires Valid(v)
    ensures r == Verdict(OrVerdict(v)) && IsBit(r, OrVerdict(v))
    ensures GetBit(r, 0) == One <==> forall n: nat :: Resolves(n, v) ==> n != 0
    ensures GetBit(r, 0) == Zero <==> forall n: nat :: Resolves(n, v) ==> n == 0
  {
    hide Verdict, Somewhere, AnyUnknown, GetBit, Resolves;
    OrExact(v);
    VerdictIs(OrVerdict(v));
    var hit, anyX := Scan(v, One);
    r := Verdict(if hit then One else if anyX then X else Zero);
  }

  /** Set bits of `lo + hi * 2^k` are those of both parts. */
  lemma {:induction false} CountSum(lo: nat, hi: nat, k: nat)
    requires lo < Pow2(k)
    ensures CountOnes(lo + Shl(hi, k)) == CountOnes(lo) + CountOnes(hi)
    decreases k
  {
    hide CountOnes, Bit, Shl, Pow2;
    HalfFits(lo, k);
    ShlDoubles(hi, k);
    if k > 0 {
      CountSum(lo / 2, hi, k - 1);
      HalvedCount(lo, Shl(hi, k - 1), Shl(hi, k));
    } else {
      NoBits();
    }
  }

  lemma HalfFits(lo: nat, k: nat)
    requires lo < Pow2(k)
    ensures if k > 0 then lo / 2 < Pow2(k - 1) else lo == 0
  {}

  lemma ShlDoubles(hi: nat, k: nat)
    ensures Shl(hi, k) == if k > 0 then 2 * Shl(hi, k - 1) else hi
  {
    hide Bit, Pow2;
  }

  lemma NoBits()
    ensures CountOnes(0) == 0
  {}

  lemma HalvedCount(lo: nat, h: nat, d: nat)
    requires d == 2 * h
    ensures CountOnes(lo + d) - CountOnes(lo / 2 + h) == CountOnes(lo) - CountOnes(lo / 2)
  {
    CountStep(lo + d);
    CountStep(lo);
    assert (lo + d) / 2 == lo / 2 + h && (lo + d) % 2 == lo % 2;
  }

  lemma CountStep(n: nat)
    ensures CountOnes(n) == n % 2 + CountOnes(n / 2)
  {}

  lemma CountWord(ws: seq<Word>, n: nat)
    requires n < |ws|
    ensures CountOnes(Val(ws, n + 1)) == CountOnes(Val(ws, n)) + CountOnes(ws[n])
  {
    hide CountOnes, Scale;
    ValBound(ws, n);
    RadixIsPow2(n);
    ScaleIsProduct(ws[n], n);
    CountSum(Val(ws, n), ws[n], 64 * n);
  }

  /** Clearing a bit out of a number takes one off its count. */
  lemma {:induction false} CountSet(n: nat, m: nat, k: nat)
    requires forall i: nat :: Bit(m, i) == if i == k then true else Bit(n, i)
    requires !Bit(n, k)
    ensures CountOnes(m) == CountOnes(n) + 1
    decreases k
  {
    assert Bit(m, 0) == (k == 0 || Bit(n, 0)) && Bit(m, k);
    CountStep(n);
    CountStep(m);
    if k == 0 {
      forall i: nat ensures Bit(m / 2, i) == Bit(n / 2, i) { assert Bit(m, i + 1) == Bit(n, i + 1); }
      EqualBits(m / 2, n / 2);
    } else {
      forall i: nat ensures Bit(m / 2, i) == if i == k - 1 then true else Bit(n / 2, i) {
        assert Bit(m, i + 1) == if i + 1 == k then true else Bit(n, i + 1);
      }
      CountSet(n / 2, m / 2, k - 1);
    }
  }

  lemma EqualBits(a: nat, b: nat)
    requires forall i: nat :: Bit(a, i) == Bit(b, i)
    ensures a == b
  {
    var k := BitLen(a) + BitLen(b);
    Pow2Mono(BitLen(a), k);
    Pow2Mono(BitLen(b), k);
    SameBits(a, b, k);
  }

  /** The parity of every bit, x as soon as one is unknown. */
  method ReduceXor(v: Value) returns (r: Value)
    requires Valid(v)
    ensures r == Verdict(XorVerdict(v)) && IsBit(r, XorVerdict(v))
    ensures GetBit(r, 0) == One <==> forall n: nat :: Resolves(n, v) ==> Parity(n)
    ensures GetBit(r, 0) == Zero <==> forall n: nat :: Resolves(n, v) ==> !Parity(n)
  {
    hide Matching, Bit, GetBit, Valid, Verdict, CountOnes, Val, Pow2, ValPlane, Resolves;
    XorExact(v);
    VerdictIs(XorVerdict(v));
    WordCount(v);
    var n, val := |PlaneWords(v).0|, PlaneWords(v).0;
    var ones: nat := 0;
    CountZero(val);
    for i := 0 to n
      invariant forall p: nat :: p < 64 * i && p < v.width ==> !Reads(v, p, X)
      invariant ones == CountOnes(Val(val, i)) % 2
    {
      if Matching(v, i, X) != 0 {
        ghost var p := SomeMatch(v, i, X);
        return Verdict(X);
      }
      NoMatch(v, i, X);
      CountWord(val, i);
      ones := (ones + CountOnes(val[i]) % 2) % 2;
    }
    forall p: nat | p < v.width ensures !UnknownBit(GetBit(v, p)) { assert !Reads(v, p, X); }
    PlaneOfWords(v);
    r := Verdict(if ones == 1 then One else Zero);
  }

  lemma CountZero(ws: seq<Word>)
    ensures CountOnes(Val(ws, 0)) == 0
  {}

  lemma PlaneOfWords(v: Value)
    ensures ToNat(PlaneWords(v).0) == ValPlane(v)
  {
    match v.storage {
      case Inline(val, _) => assert Val([val], 1) == Val([val], 0) + Scale(val, 0);
      case Wide(_, _) =>
    }
  }

  /* ---- exactness ---- */

  lemma KnownResolution(n: nat, v: Value)
    requires Valid(v) && Resolves(n, v) && !AnyUnknown(v)
    ensures n == ValPlane(v)
  {
    hide Bit, VBit, XBit, Pow2, ValPlane;
    BitViews(v);
    forall i: nat | i < v.width ensures Bit(n, i) == Bit(ValPlane(v), i) {
      assert GetBit(v, i) != X && GetBit(v, i) != Z;
    }
    SameBits(n, ValPlane(v), v.width);
  }

  ghost predicate AllBits(n: nat, w: nat, bit: bool) {
    forall i: nat :: i < w ==> Bit(n, i) == bit
  }

  lemma ZeroIff(n: nat, w: nat)
    requires n < Pow2(w)
    ensures n == 0 <==> AllBits(n, w, false)
  {
    hide Bit;
    BitsOfZero();
    if AllBits(n, w, false) { SameBits(n, 0, w); }
  }

  lemma FullIff(n: nat, w: nat)
    requires n < Pow2(w)
    ensures n == Pow2(w) - 1 <==> AllBits(n, w, true)
  {
    hide Bit, Ones;
    var f := Ones(w);
    if AllBits(n, w, true) { SameBits(n, f, w); }
  }

  /** Every resolution is (or none is) nonzero, exactly as the verdict says. */
  lemma {:induction false} OrExact(v: Value)
    requires Valid(v)
    ensures OrVerdict(v) == One <==> forall n: nat :: Resolves(n, v) ==> n != 0
    ensures OrVerdict(v) == Zero <==> forall n: nat :: Resolves(n, v) ==> n == 0
  {
    hide Bit, GetBit, Pow2, LowRes, HighRes;
    Extremes(v);
    var l, h := LowRes(v), HighRes(v);
    ZeroIff(l, v.width);
    ZeroIff(h, v.width);
    forall n: nat | Resolves(n, v)
      ensures Somewhere(v, One) ==> n != 0
      ensures !Somewhere(v, One) && !AnyUnknown(v) ==> n == 0
    {
      ZeroIff(n, v.width);
      forall i: nat | i < v.width
        ensures GetBit(v, i) == One ==> Bit(n, i)
        ensures GetBit(v, i) == Zero ==> !Bit(n, i)
      {
        ResolvedBit(n, v, i);
      }
    }
    forall i: nat | i < v.width
      ensures GetBit(v, i) != One ==> !Bit(l, i)
      ensures UnknownBit(GetBit(v, i)) ==> Bit(h, i)
    {
      LowBitOf(v, i);
      if UnknownBit(GetBit(v, i)) { BothWays(v, i); }
    }
  }

  lemma LowBitOf(v: Value, i: nat)
    requires Valid(v) && i < v.width
    ensures Bit(LowRes(v), i) <==> GetBit(v, i) == One
    ensures Bit(HighRes(v), i) <==> GetBit(v, i) != Zero
  {
    hide Bit, VBit, XBit, LowRes, HighRes;
    Extremes(v);
  }

  lemma {:induction false} AndExact(v: Value)
    requires Valid(v)
    ensures AndVerdict(v) == One <==> forall n: nat :: Resolves(n, v) ==> n == Pow2(v.width) - 1
    ensures AndVerdict(v) == Zero <==> forall n: nat :: Resolves(n, v) ==> n != Pow2(v.width) - 1
  {
    hide Bit, GetBit, Pow2, LowRes, HighRes, Ones;
    Extremes(v);
    var l, h := LowRes(v), HighRes(v);
    FullIff(l, v.width);
    FullIff(h, v.width);
    forall n: nat | Resolves(n, v)
      ensures Somewhere(v, Zero) ==> n != Pow2(v.width) - 1
      ensures !Somewhere(v, Zero) && !AnyUnknown(v) ==> n == Pow2(v.width) - 1
    {
      FullIff(n, v.width);
      forall i: nat | i < v.width
        ensures GetBit(v, i) == One ==> Bit(n, i)
        ensures GetBit(v, i) == Zero ==> !Bit(n, i)
      {
        ResolvedBit(n, v, i);
      }
    }
    forall i: nat | i < v.width
      ensures Bit(l, i) <==> GetBit(v, i) == One
      ensures Bit(h, i) <==> GetBit(v, i) != Zero
    {
      LowBitOf(v, i);
    }
  }

  /** One unknown bit makes both parities possible. */
  lemma {:induction false} XorExact(v: Value)
    requires Valid(v)
    ensures XorVerdict(v) == One <==> forall n: nat :: Resolves(n, v) ==> Parity(n)
    ensures XorVerdict(v) == Zero <==> forall n: nat :: Resolves(n, v) ==> !Parity(n)
  {
    hide Bit, GetBit, Pow2, LowRes, HighRes, CountOnes, ValPlane, VBit, XBit;
    Extremes(v);
    if AnyUnknown(v) {
      var i: nat :| i < v.width && UnknownBit(GetBit(v, i));
      BothWays(v, i);
      FlippedRes(v, i);
      CountSet(LowRes(v), Or(LowRes(v), Shl(1, i)), i);
    } else {
      forall n: nat | Resolves(n, v) ensures n == ValPlane(v) { KnownResolution(n, v); }
      KnownResolution(LowRes(v), v);
    }
  }

  /** The low resolution with one unknown bit turned on. */
  lemma FlippedRes(v: Value, i: nat)
    requires Valid(v) && i < v.width && UnknownBit(GetBit(v, i))
    ensures var m := Or(LowRes(v), Shl(1, i));
      Resolves(m, v) && forall k: nat :: Bit(m, k) == if k == i then true else Bit(LowRes(v), k)
  {
    OneBit(1);
    assert Bit(1, 0);
    hide Bit, VBit, XBit, LowRes, Or, Shl, Pow2;
    Extremes(v);
    HighClear(v);
    var m := Or(LowRes(v), Shl(1, i));
    forall k: nat ensures Bit(m, k) == if k == i then true else Bit(LowRes(v), k) {
      assert Bit(Shl(1, i), k) == (k >= i && Bit(1, k - i));
    }
    BoundFromBits(m, v.width);
  }
}
