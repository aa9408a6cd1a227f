module Engines {
  // The two-state engine and the four-state one agree on fully known unsigned values.

  import opened WordBits
  import opened WordVec
  import opened Planes
  import opened Values
  import opened ValueArith
  import opened ValueMove
  import opened ValueJoin
  import T = TwoState

  /** An operand both engines can hold: known, unsigned, at least one bit wide. */
  ghost predicate Operand(v: Value) {
    Known(v) && !v.signed && v.width > 0
  }

  /** Known values with one width, sign and number are one value. */
  lemma SameKnown(u: Value, v: Value)
    requires Known(u) && Known(v) && u.width == v.width && u.signed == v.signed && ValPlane(u) == ValPlane(v)
    ensures u == v
  {
    hide VBit, XBit, Bit, ToNat;
    BitViews(u);
    BitViews(v);
    SameValue(u, v);
  }

  /** Well-formed two-state values with one width and number are one value. */
  lemma SameTwoState(a: T.Bits2, b: T.Bits2)
    requires T.Valid(a) && T.Valid(b) && a.width == b.width && T.Nat(a) == T.Nat(b)
    ensures a == b
  {
    hide ToNat;
    SameWords(T.Words(a), T.Words(b));
  }

  /* ---- conversions ---- */

  /** Collapse to two states: known 1 stays 1, everything else is 0. */
  method FromValue(v: Value) returns (b: T.Bits2)
    requires Valid(v) && v.width > 0
    ensures T.Valid(b) && b.width == v.width
    ensures forall i: nat :: Bit(T.Nat(b), i) == (VBit(v, i) && !XBit(v, i))
    ensures Known(v) ==> T.Nat(b) == ValPlane(v)
  {
    hide Bit, VBit, XBit, T.FromU64, T.SetBit, T.Nat, Pow2, And64, Not64, T.Zero, ToNat;
    HighClear(v);
    if v.width <= 64 {
      b := T.FromU64(And64(v.storage.val, Not64(v.storage.xz)), v.width);
      NarrowCollapse(v);
    } else {
      b := T.Zero(v.width);
      T.ZeroIs(v.width);
      BitsOfZero();
      for i := 0 to v.width
        invariant T.Valid(b) && b.width == v.width
        invariant forall k: nat :: Bit(T.Nat(b), k) == (k < i && VBit(v, k) && !XBit(v, k))
      {
        if GetBit(v, i) == One {
          T.SetBitIs(b, i, true);
          b := T.SetBit(b, i, true);
        }
      }
    }
    if Known(v) {
      BitViews(v);
      BitsOfZero();
      SameBits(T.Nat(b), ValPlane(v), v.width);
    }
  }

  lemma NarrowCollapse(v: Value)
    requires Valid(v) && 0 < v.width <= 64
    ensures var b := T.FromU64(And64(v.storage.val, Not64(v.storage.xz)), v.width);
      T.Valid(b) && b.width == v.width && forall i: nat :: Bit(T.Nat(b), i) == (VBit(v, i) && !XBit(v, i))
  {
    hide Bit, T.FromWords, T.Nat, Pow2, And, Not64, Low;
    var n := And64(v.storage.val, Not64(v.storage.xz));
    T.FromU64Is(n, v.width);
    T.FromWordsBits([n], v.width);
    HighClear(v);
    InlineBits(v);
    forall i: nat ensures Bit(T.Nat(T.FromU64(n, v.width)), i) == (VBit(v, i) && !XBit(v, i)) {
      assert i < 64 ==> WBit([n], i) == Bit(n, i);
    }
  }

  /** Lift back to a fully known four-state value. */
  method ToValue(b: T.Bits2) returns (v: Value)
    requires T.Valid(b) && b.width <= MAX_WIDTH
    ensures Known(v) && v.width == b.width && !v.signed && ValPlane(v) == T.Nat(b)
  {
    hide Bit, WBit, Pow2, FromU64, Masked, Val, T.Nat, T.GetBit, T.WordOf;
    if b.width <= 64 {
      T.NarrowWord(b);
      FromU64Holds(T.WordOf(b, 0), b.width);
      SmallMod(T.Nat(b), Pow2(b.width));
      return FromU64(T.WordOf(b, 0), b.width);
    }
    var p := new WidePlanes.Zeroed(b.width);
    for i := 0 to b.width
      invariant fresh(p) && p.Valid() && p.nbits == b.width
      invariant forall k: nat :: WBit(p.val, k) == (k < i && Bit(T.Nat(b), k))
      invariant forall k: nat :: !WBit(p.xz, k)
    {
      T.GetBitIs(b, i);
      if T.GetBit(b, i) { p.Set(i, One); }
    }
    v := Value(Wide(p.val, p.xz), b.width, false);
    LiftedPlanes(p.val, p.xz, b);
  }

  lemma LiftedPlanes(val: seq<Word>, xz: seq<Word>, b: T.Bits2)
    requires T.Valid(b) && 64 < b.width <= MAX_WIDTH && |val| == |xz| == NWords(b.width)
    requires forall k: nat :: WBit(val, k) == (k < b.width && Bit(T.Nat(b), k))
    requires forall k: nat :: !WBit(xz, k)
    ensures var v := Value(Wide(val, xz), b.width, false); Known(v) && ValPlane(v) == T.Nat(b)
  {
    assert Pow2(0) == 1;
    hide Bit, WBit, Pow2, Val, T.Nat;
    WideValid(val, xz, b.width, false);
    PlaneNumber(val);
    PlaneNumber(xz);
    SameBits(ToNat(val), T.Nat(b), b.width);
    BoundFromBits(ToNat(xz), 0) by { forall i: nat ensures !Bit(ToNat(xz), i) {} }
  }

  /** `from_value` inverts `to_value`. */
  method RoundTrip(b: T.Bits2) returns (back: T.Bits2)
    requires T.Valid(b) && b.width <= MAX_WIDTH
    ensures back == b
  {
    hide T.Nat, VBit, XBit;
    var v := ToValue(b);
    back := FromValue(v);
    SameTwoState(back, b);
  }

  /* ---- arithmetic ---- */

  /** Bring a two-state result back and compare it with what the other engine holds. */
  method Lift(r: T.Bits2, ghost x: int, ghost v: Value) returns (u: Value)
    requires T.Valid(r) && r.width <= MAX_WIDTH && Holds(v, x, r.width, false) && T.Nat(r) == x % Pow2(r.width)
    ensures u == v
  {
    hide T.Nat, Pow2, ValPlane;
    u := ToValue(r);
    SameKnown(u, v);
  }

  lemma OperandInt(v: Value)
    requires Operand(v)
    ensures !HasXz(v) && IntOf(v, false) == ValPlane(v)
  {
    HasXzIff(v);
  }

  method AddAgrees(a: Value, b: Value) returns (two: Value, four: Value)
    requires Operand(a) && Operand(b)
    ensures two == four && Holds(two, ValPlane(a) + ValPlane(b), Max(a.width, b.width), false)
  {
    hide T.Nat, Pow2, ValPlane, XzPlane, HasXz, VBit, XBit;
    OperandInt(a);
    OperandInt(b);
    var x := FromValue(a);
    var y := FromValue(b);
    var r := T.Add(x, y);
    four := Add(a, b);
    two := Lift(r, ValPlane(a) + ValPlane(b), four);
  }

  /** Subtraction agrees exactly when the subtrahend is at least as wide. */
  method SubAgrees(a: Value, b: Value) returns (two: Value, four: Value)
    requires Operand(a) && Operand(b)
    ensures Holds(four, ValPlane(a) - ValPlane(b), Max(a.width, b.width), false)
    ensures Holds(two, ValPlane(a) - ValPlane(b) + Pow2(b.width), Max(a.width, b.width), false)
    ensures two == four <==> b.width >= a.width
  {
    hide T.Nat, Pow2, ValPlane, XzPlane, HasXz, VBit, XBit;
    OperandInt(a);
    OperandInt(b);
    var x := FromValue(a);
    var y := FromValue(b);
    var r := T.Sub(x, y);
    four := Sub(a, b);
    T.SubExact(ValPlane(a), ValPlane(b), a.width, b.width);
    two := ToValue(r);
    if b.width >= a.width { SameKnown(two, four); }
  }

  /** `8'd0 - 4'd0` is 16 in the two-state engine. */
  method SubCounterexample() returns (two: Value, four: Value)
    ensures ValPlane(two) == 16 && ValPlane(four) == 0
  {
    assert Pow2(8) == 256 && Pow2(4) == 16;
    two, four := SubAgrees(Value(Inline(0, 0), 8, false), Value(Inline(0, 0), 4, false));
  }

  method MulAgrees(a: Value, b: Value) returns (two: Value, four: Value)
    requires Operand(a) && Operand(b)
    ensures two == four && Holds(two, ValPlane(a) * ValPlane(b), Max(a.width, b.width), false)
  {
    hide T.Nat, Pow2, ValPlane, XzPlane, HasXz, VBit, XBit;
    OperandInt(a);
    OperandInt(b);
    var x := FromValue(a);
    var y := FromValue(b);
    var r := T.Mul(x, y);
    four := Mul(a, b);
    two := Lift(r, ValPlane(a) * ValPlane(b), four);
  }

  /** For a nonzero divisor. */
  method DivAgrees(a: Value, b: Value) returns (twoQ: Value, twoR: Value, fourQ: Value, fourR: Value)
    requires Operand(a) && Operand(b) && ValPlane(b) != 0
    ensures twoQ == fourQ && twoR == fourR
    ensures ValPlane(a) == ValPlane(twoQ) * ValPlane(b) + ValPlane(twoR) && ValPlane(twoR) < ValPlane(b)
  {
    hide T.Nat, Pow2, ValPlane, XzPlane, HasXz, VBit, XBit;
    OperandInt(a);
    OperandInt(b);
    var x := FromValue(a);
    var y := FromValue(b);
    var q, r := T.Divmod(x, y);
    fourQ := Div(a, b);
    fourR := Modulo(a, b);
    QuotientUnique(ValPlane(a), ValPlane(b), T.Nat(q), T.Nat(r));
    SmallMod(T.Nat(q), Pow2(q.width));
    SmallMod(T.Nat(r), Pow2(r.width));
    twoQ := Lift(q, T.Nat(q), fourQ);
    twoR := Lift(r, T.Nat(r), fourR);
  }

  /* ---- shifts, concatenation, selection ---- */

  /** A known value moved up, as a number. */
  lemma MovedUpNumber(r: Value, v: Value, n: nat)
    requires Known(v) && MovedUp(r, v, n)
    ensures Known(r) && ValPlane(r) == Low(Shl(ValPlane(v), n), v.width)
  {
    hide Bit, VBit, XBit, Pow2, Low, Shl, ValPlane;
    BitViews(r);
    BitViews(v);
    BitsOfZero();
    SameBits(XzPlane(r), 0, v.width);
    SameBits(ValPlane(r), Low(Shl(ValPlane(v), n), v.width), v.width);
  }

  lemma MovedDownNumber(r: Value, v: Value, n: nat)
    requires Known(v) && MovedDown(r, v, n, Zero)
    ensures Known(r) && ValPlane(r) == Shr(ValPlane(v), n)
  {
    hide Bit, VBit, XBit, Pow2, Shr, ValPlane;
    BitViews(r);
    BitViews(v);
    HighClear(v);
    BitsOfZero();
    SameBits(XzPlane(r), 0, v.width);
    SameBits(ValPlane(r), Shr(ValPlane(v), n), v.width);
  }

  lemma KnownAmount(a: Value)
    requires Known(a)
    ensures !HasXz(a)
  {
    HasXzIff(a);
  }

  method ShiftsAgree(v: Value, amount: Value) returns (twoL: Value, twoR: Value, fourL: Value, fourR: Value)
    requires Operand(v) && Operand(amount)
    ensures twoL == fourL && twoR == fourR
    ensures ValPlane(twoL) == Low(Shl(ValPlane(v), ShiftAmount(amount)), v.width)
    ensures ValPlane(twoR) == Shr(ValPlane(v), ShiftAmount(amount))
  {
    hide T.Nat, Pow2, ValPlane, XzPlane, VBit, XBit, Low, Shl, Shr, HasXz, Bit, RawWord;
    var n := ShiftAmount(amount);
    var x := FromValue(v);
    var l := T.ShiftLeft(x, n);
    var r := T.ShiftRight(x, n);
    KnownAmount(amount);
    fourL := ShiftLeft(v, amount);
    fourR := ShiftRight(v, amount);
    MovedUpNumber(fourL, v, n);
    MovedDownNumber(fourR, v, n);
    twoL := ToValue(l);
    twoR := ToValue(r);
    SameKnown(twoL, fourL);
    SameKnown(twoR, fourR);
  }

  method ConcatAgrees(a: Value, b: Value) returns (two: Value, four: Value)
    requires Operand(a) && Operand(b) && a.width + b.width <= MAX_WIDTH
    ensures two == four && Known(two) && ValPlane(two) == ValPlane(a) * Pow2(b.width) + ValPlane(b)
  {
    hide T.Nat, Pow2, ValPlane, XzPlane, VBit, XBit, Joins, Bit;
    var x := FromValue(a);
    var y := FromValue(b);
    var r := T.Concat(x, y);
    PairWidth(a, b);
    four := ConcatRefs([a, b]);
    PairNumber(a, b, four);
    two := ToValue(r);
    SameKnown(two, four);
  }

  lemma PairWidth(a: Value, b: Value)
    ensures TotalWidth([a, b]) == a.width + b.width
  {
    assert [a, b][..1] == [a] && [a][..0] == [];
    assert TotalWidth([a]) == TotalWidth([]) + a.width;
  }

  lemma PairNumber(a: Value, b: Value, r: Value)
    requires Known(a) && Known(b) && Joins(r, [a, b], a.width + b.width)
    ensures Known(r) && !r.signed && r.width == a.width + b.width
    ensures ValPlane(r) == ValPlane(a) * Pow2(b.width) + ValPlane(b)
  {
    hide Bit, VBit, XBit, Pow2, ValPlane, XzPlane, JoinV, JoinX;
    BitViews(r);
    BitViews(a);
    BitViews(b);
    HighClear(a);
    BitsOfZero();
    var n := ValPlane(a) * Pow2(b.width) + ValPlane(b);
    T.ConcatFits(ValPlane(a), ValPlane(b), a.width, b.width);
    BitsOfSumAt(n, ValPlane(b), ValPlane(a), b.width);
    forall i: nat ensures JoinV([a, b], i) == Bit(n, i) && !JoinX([a, b], i) { PairBit(a, b, i); }
    SameBits(XzPlane(r), 0, r.width);
    SameBits(ValPlane(r), n, r.width);
  }

  lemma PairBit(a: Value, b: Value, i: nat)
    requires Valid(a) && Valid(b)
    ensures JoinV([a, b], i) == if i < b.width then VBit(b, i) else VBit(a, i - b.width)
    ensures JoinX([a, b], i) == if i < b.width then XBit(b, i) else XBit(a, i - b.width)
  {
    hide VBit, XBit;
    HighClear(a);
    assert [a, b][..1] == [a] && [a][..0] == [];
    if i >= b.width {
      assert JoinV([a], i - b.width) == (if i - b.width < a.width then VBit(a, i - b.width) else JoinV([], i - b.width - a.width));
      assert JoinX([a], i - b.width) == (if i - b.width < a.width then XBit(a, i - b.width) else JoinX([], i - b.width - a.width));
    }
  }

  method SliceAgrees(v: Value, hi: nat, lo: nat) returns (two: Value, four: Value)
    requires Operand(v) && lo <= hi < v.width
    ensures two == four && Known(two) && ValPlane(two) == Low(Shr(ValPlane(v), lo), hi - lo + 1)
  {
    hide T.Nat, Pow2, ValPlane, XzPlane, VBit, XBit, Bit, Low, Shr;
    var x := FromValue(v);
    var r := T.Slice(x, hi, lo);
    four := RangeSelect(v, hi, lo);
    SelectedNumber(four, v, lo, hi - lo + 1);
    two := ToValue(r);
    SameKnown(two, four);
  }

  lemma SelectedNumber(r: Value, v: Value, lo: nat, w: nat)
    requires Known(v) && Selected(r, v, lo, w) && lo + w <= v.width
    ensures Known(r) && ValPlane(r) == Low(Shr(ValPlane(v), lo), w)
  {
    hide Bit, VBit, XBit, Pow2, ValPlane, XzPlane, Low, Shr;
    BitViews(r);
    BitViews(v);
    BitsOfZero();
    SameBits(XzPlane(r), 0, w);
    SameBits(ValPlane(r), Low(Shr(ValPlane(v), lo), w), w);
  }
}
