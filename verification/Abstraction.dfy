module Abstraction {
  // What four-state operators are for: a result bit is known exactly when every
  // 0/1 resolution of the operands' x and z bits gives that bit.

  import opened WordBits
  import opened WordVec
  import opened Planes
  import opened Values
  import opened ValueMove
  import opened FourState

  /** `n` is `v` with every x and z replaced by 0 or 1. */
  ghost predicate Resolves(n: nat, v: Value) {
    n < Pow2(v.width) && forall i: nat :: i < v.width && !XBit(v, i) ==> Bit(n, i) == VBit(v, i)
  }

  /** The resolution that reads every unknown bit as 0. */
  ghost function LowRes(v: Value): nat
    requires Valid(v)
  {
    And(ValPlane(v), Flip(XzPlane(v), v.width))
  }

  /** The resolution that reads every unknown bit as 1. */
  ghost function HighRes(v: Value): nat {
    Or(ValPlane(v), XzPlane(v))
  }

  lemma Extremes(v: Value)
    requires Valid(v)
    ensures Resolves(LowRes(v), v) && Resolves(HighRes(v), v)
    ensures forall i: nat :: Bit(LowRes(v), i) == (VBit(v, i) && !XBit(v, i))
    ensures forall i: nat :: Bit(HighRes(v), i) == (VBit(v, i) || XBit(v, i))
  {
    hide Bit, VBit, XBit, And, Or, Flip, Pow2, ValPlane, XzPlane;
    BitViews(v);
    HighClear(v);
    BoundFromBits(LowRes(v), v.width);
    BoundFromBits(HighRes(v), v.width);
  }

  /** A resolution bit is what a known bit says, and 0 past the width. */
  lemma ResolvedBit(n: nat, v: Value, i: nat)
    requires Resolves(n, v)
    ensures GetBit(v, i) == One ==> Bit(n, i)
    ensures GetBit(v, i) == Zero ==> !Bit(n, i)
  {
    hide Bit, VBit, XBit, Pow2;
    HighBitsClear(n, v.width);
  }

  /** Two resolutions that show an unknown bit both ways. */
  lemma BothWays(v: Value, i: nat)
    requires Valid(v) && UnknownBit(GetBit(v, i))
    ensures Resolves(LowRes(v), v) && Resolves(HighRes(v), v)
    ensures !Bit(LowRes(v), i) && Bit(HighRes(v), i)
  {
    hide Bit, VBit, XBit, Pow2, LowRes, HighRes;
    Extremes(v);
  }

  /* ---- bitwise operators ---- */

  /** Bit `i` of the two-state result is `bit`; the merge asks it of both branches. */
  ghost predicate Yields(op: Op, a: nat, b: nat, i: nat, bit: bool) {
    match op
    case AndOp => Bit(And(a, b), i) == bit
    case OrOp => Bit(Or(a, b), i) == bit
    case XorOp => Bit(Xor(a, b), i) == bit
    case MergeOp => Bit(a, i) == bit && Bit(b, i) == bit
  }

  /** Every resolution of the operands gives `bit` at position `i`. */
  ghost predicate Always(op: Op, a: Value, b: Value, i: nat, bit: bool) {
    forall m: nat, n: nat :: Resolves(m, a) && Resolves(n, b) ==> Yields(op, m, n, i, bit)
  }

  /** Some resolution of `v` shows at `i` a value that its four-state bit allows. */
  lemma Witness(v: Value, i: nat, bit: bool) returns (n: nat)
    requires Valid(v)
    ensures Resolves(n, v)
    ensures UnknownBit(GetBit(v, i)) ==> Bit(n, i) == bit
    ensures GetBit(v, i) == One ==> Bit(n, i)
    ensures GetBit(v, i) == Zero ==> !Bit(n, i)
  {
    hide Bit, VBit, XBit, Pow2, LowRes, HighRes, Resolves;
    Extremes(v);
    n := if bit then HighRes(v) else LowRes(v);
    if UnknownBit(GetBit(v, i)) { BothWays(v, i); }
    ResolvedBit(n, v, i);
  }

  /** Bitwise results are sound and exact. */
  lemma {:induction false} BitwiseExact(r: Value, op: Op, a: Value, b: Value, i: nat)
    requires Valid(a) && Valid(b) && Tabulated(r, op, a, b) && i < r.width
    ensures GetBit(r, i) == One <==> Always(op, a, b, i, true)
    ensures GetBit(r, i) == Zero <==> Always(op, a, b, i, false)
    ensures GetBit(r, i) != Z
  {
    hide Bit, GetBit, Resolves, And, Or, Xor;
    var ba, bb := GetBit(a, i), GetBit(b, i);
    forall m: nat, n: nat | Resolves(m, a) && Resolves(n, b)
      ensures GetBit(r, i) == One ==> Yields(op, m, n, i, true)
      ensures GetBit(r, i) == Zero ==> Yields(op, m, n, i, false)
    {
      ResolvedBit(m, a, i);
      ResolvedBit(n, b, i);
    }
    Refute(r, op, a, b, i, false, false);
    Refute(r, op, a, b, i, false, true);
    Refute(r, op, a, b, i, true, false);
    Refute(r, op, a, b, i, true, true);
  }

  /** The resolutions choosing `p` and `q` for unknown bits bound what can always hold. */
  lemma Refute(r: Value, op: Op, a: Value, b: Value, i: nat, p: bool, q: bool)
    requires Valid(a) && Valid(b)
    ensures var x, y := Chosen(GetBit(a, i), p), Chosen(GetBit(b, i), q);
      && (Always(op, a, b, i, true) ==> TwoState(op, x, y, true))
      && (Always(op, a, b, i, false) ==> TwoState(op, x, y, false))
  {
    hide Bit, GetBit, Resolves, And, Or, Xor;
    var m := Witness(a, i, p);
    var n := Witness(b, i, q);
    assert Yields(op, m, n, i, true) <==> TwoState(op, Bit(m, i), Bit(n, i), true);
    assert Yields(op, m, n, i, false) <==> TwoState(op, Bit(m, i), Bit(n, i), false);
  }

  predicate Chosen(b: LogicBit, c: bool) {
    match b
    case Zero => false
    case One => true
    case _ => c
  }

  predicate TwoState(op: Op, x: bool, y: bool, bit: bool) {
    match op
    case AndOp => (x && y) == bit
    case OrOp => (x || y) == bit
    case XorOp => (x != y) == bit
    case MergeOp => x == bit && y == bit
  }

  lemma {:induction false} NotExact(r: Value, a: Value, i: nat)
    requires Valid(a) && i < a.width && GetBit(r, i) == NotBit(GetBit(a, i))
    ensures GetBit(r, i) == One <==> forall n: nat :: Resolves(n, a) ==> !Bit(n, i)
    ensures GetBit(r, i) == Zero <==> forall n: nat :: Resolves(n, a) ==> Bit(n, i)
    ensures GetBit(r, i) != Z
  {
    hide Bit, GetBit, Resolves;
    forall n: nat | Resolves(n, a)
      ensures GetBit(r, i) == One ==> !Bit(n, i)
      ensures GetBit(r, i) == Zero ==> Bit(n, i)
    {
      ResolvedBit(n, a, i);
    }
    var l := Witness(a, i, false);
    var h := Witness(a, i, true);
  }
}
