module FourState {
  // Four-state operators: word-parallel lanes against per-bit truth tables.

  import opened WordBits
  import opened WordVec
  import opened Planes
  import opened Values
  import opened ValueMove
  import opened ValueJoin

  datatype Op = AndOp | OrOp | XorOp | MergeOp

  /** IEEE 1800-2017 tables 11-11 to 11-15 and 11-21, one bit. */
  function Table(op: Op, a: LogicBit, b: LogicBit): LogicBit {
    match op
    case AndOp => if a == Zero || b == Zero then Zero else if a == One && b == One then One else X
    case OrOp => if a == One || b == One then One else if a == Zero && b == Zero then Zero else X
    case XorOp => if UnknownBit(a) || UnknownBit(b) then X else if a == b then Zero else One
    case MergeOp => if a == b && !UnknownBit(a) then a else X
  }

  /** The inline arms, on whole planes. */
  function InlineLane(op: Op, av: Word, ax: Word, bv: Word, bx: Word, w: nat): (Word, Word) {
    var any := Or64(ax, bx);
    match op
    case AndOp =>
      if ax == 0 && bx == 0 then (And64(av, bv), 0)
      else
        var killed := Or64(And64(Not64(av), Not64(ax)), And64(Not64(bv), Not64(bx)));
        (And64(And64(av, bv), Not64(any)), And64(And64(any, Not64(killed)), Mask(w)))
    case OrOp =>
      if ax == 0 && bx == 0 then (Or64(av, bv), 0)
      else
        var ones := Or64(And64(av, Not64(ax)), And64(bv, Not64(bx)));
        (Or64(And64(Or64(av, bv), Not64(any)), ones), And64(And64(any, Not64(ones)), Mask(w)))
    case XorOp =>
      (And64(Xor64(av, bv), Not64(any)), And64(any, Mask(w)))
    case MergeOp =>
      var m := Mask(w);
      var agree := And64(And64(And64(Not64(And64(ax, m)), Not64(And64(bx, m))), m), Not64(Xor64(And64(av, m), And64(bv, m))));
      (And64(And64(av, m), agree), And64(m, Not64(agree)))
  }

  /** The lane algebra of the wide planes, 64 bits at a time. */
  function WideLane(op: Op, av: Word, ax: Word, bv: Word, bx: Word): (Word, Word) {
    match op
    case AndOp =>
      var zero := Or64(And64(Not64(av), Not64(ax)), And64(Not64(bv), Not64(bx)));
      var one := And64(And64(And64(av, Not64(ax)), bv), Not64(bx));
      (one, And64(Not64(zero), Not64(one)))
    case OrOp =>
      var one := Or64(And64(av, Not64(ax)), And64(bv, Not64(bx)));
      var zero := And64(And64(And64(Not64(av), Not64(ax)), Not64(bv)), Not64(bx));
      (one, And64(Not64(one), Not64(zero)))
    case XorOp =>
      var unknown := Or64(ax, bx);
      (And64(Xor64(av, bv), Not64(unknown)), unknown)
    case MergeOp =>
      var agree := And64(And64(Not64(ax), Not64(bx)), Not64(Xor64(av, bv)));
      (And64(av, agree), Not64(agree))
  }

  /** `(v, x)` encodes the truth table at bit `k`. */
  ghost predicate Encodes(lane: (Word, Word), op: Op, av: Word, ax: Word, bv: Word, bx: Word, k: nat) {
    var t := Table(op, ToLogic(Bit(av, k), Bit(ax, k)), ToLogic(Bit(bv, k), Bit(bx, k)));
    Bit(lane.0, k) == ValueBit(t) && Bit(lane.1, k) == UnknownBit(t)
  }

  lemma {:induction false} InlineLaneEncodes(op: Op, av: Word, ax: Word, bv: Word, bx: Word, w: nat, k: nat)
    requires k < w <= 64
    ensures Encodes(InlineLane(op, av, ax, bv, bx, w), op, av, ax, bv, bx, k)
  {
    hide Bit, And64, Or64, Xor64, Not64, Mask;
    BitsOfZero();
  }

  lemma {:induction false} WideLaneEncodes(op: Op, av: Word, ax: Word, bv: Word, bx: Word, k: nat)
    requires k < 64
    ensures Encodes(WideLane(op, av, ax, bv, bx), op, av, ax, bv, bx, k)
  {
    hide Bit, And64, Or64, Xor64, Not64;
  }

  /** `r` is the truth table of `op` applied at every bit of the wider operand. */
  ghost predicate Tabulated(r: Value, op: Op, a: Value, b: Value) {
    && Valid(r) && r.width == Max(a.width, b.width)
    && forall i: nat :: i < r.width ==> GetBit(r, i) == Table(op, GetBit(a, i), GetBit(b, i))
  }

  /** `and`, `or`, `xor` and the `?:` merge: registers, lanes of planes, or bit by bit. */
  method Bitwise(op: Op, a: Value, b: Value) returns (r: Value)
    requires Valid(a) && Valid(b)
    ensures Tabulated(r, op, a, b)
    ensures r.signed ==> op == MergeOp && a.signed && b.signed
  {
    hide Bit, WBit, VBit, XBit, InlineLane, WideLane, Pow2, Tabulated;
    var w := Max(a.width, b.width);
    if a.storage.Inline? && b.storage.Inline? {
      var lane := InlineLane(op, a.storage.val, a.storage.xz, b.storage.val, b.storage.xz, w);
      r := Value(Inline(lane.0, lane.1), w, op == MergeOp && a.signed && b.signed);
      InlineTabulated(r, op, a, b);
    } else if a.storage.Wide? && b.storage.Wide? && a.width == b.width {
      r := BitwiseLanes(op, a, b);
    } else {
      r := BitwiseBits(op, a, b);
    }
  }

  lemma InlineTabulated(r: Value, op: Op, a: Value, b: Value)
    requires Valid(a) && Valid(b) && a.width <= 64 && b.width <= 64
    requires r.width == Max(a.width, b.width) && r.storage.Inline?
    requires (r.storage.val, r.storage.xz) == InlineLane(op, a.storage.val, a.storage.xz, b.storage.val, b.storage.xz, r.width)
    ensures Tabulated(r, op, a, b)
  {
    hide Bit, InlineLane, Pow2, Mask;
    InlineBits(a);
    InlineBits(b);
    InlineBits(r);
    HighClear(a);
    HighClear(b);
    forall i: nat | i < r.width
      ensures GetBit(r, i) == Table(op, GetBit(a, i), GetBit(b, i))
    {
      InlineLaneEncodes(op, a.storage.val, a.storage.xz, b.storage.val, b.storage.xz, r.width, i);
    }
    InlineLaneMasked(op, a, b, r.width);
    NarrowValid(r.storage.val, r.storage.xz, r.width, r.signed);
  }

  /** No lane sets a bit past the wider operand. */
  lemma InlineLaneMasked(op: Op, a: Value, b: Value, w: nat)
    requires Valid(a) && Valid(b) && a.width <= w <= 64 && b.width <= w
    ensures var l := InlineLane(op, a.storage.val, a.storage.xz, b.storage.val, b.storage.xz, w);
      forall i: nat :: i >= w ==> !Bit(l.0, i) && !Bit(l.1, i)
  {
    hide Bit, And64, Or64, Xor64, Not64, Mask;
    InlineBits(a);
    InlineBits(b);
    HighClear(a);
    HighClear(b);
    BitsOfZero();
    var l := InlineLane(op, a.storage.val, a.storage.xz, b.storage.val, b.storage.xz, w);
    forall i: nat | i >= w ensures !Bit(l.0, i) && !Bit(l.1, i) {
      assert !VBit(a, i) && !VBit(b, i) && !XBit(a, i) && !XBit(b, i);
    }
  }

  /** Two wide operands of one width: a word of each plane per iteration, then the top mask. */
  method BitwiseLanes(op: Op, a: Value, b: Value) returns (r: Value)
    requires Valid(a) && Valid(b) && a.width == b.width > 64
    ensures Tabulated(r, op, a, b) && !r.signed
  {
    hide Bit, WBit, WideLane, MaskedWords, Pow2;
    var n := NWords(a.width);
    var av, ax, bv, bx := a.storage.vals, a.storage.xzs, b.storage.vals, b.storage.xzs;
    var rv: seq<Word>, rx: seq<Word> := [], [];
    for i := 0 to n
      invariant |rv| == |rx| == i
      invariant forall j :: 0 <= j < i ==> (rv[j], rx[j]) == WideLane(op, av[j], ax[j], bv[j], bx[j])
    {
      var lane := WideLane(op, av[i], ax[i], bv[i], bx[i]);
      rv, rx := rv + [lane.0], rx + [lane.1];
    }
    r := PlanesToValue(rv, rx, a.width);
    LanesTabulated(r, op, a, b, rv, rx);
  }

  lemma LanesTabulated(r: Value, op: Op, a: Value, b: Value, rv: seq<Word>, rx: seq<Word>)
    requires Valid(a) && Valid(b) && a.width == b.width > 64 && |rv| == |rx| == NWords(a.width)
    requires r == PlanesToValue(rv, rx, a.width)
    requires forall j :: 0 <= j < |rv| ==>
      (rv[j], rx[j]) == WideLane(op, a.storage.vals[j], a.storage.xzs[j], b.storage.vals[j], b.storage.xzs[j])
    ensures Tabulated(r, op, a, b)
  {
    hide Bit, WideLane, Pow2, PlanesToValue, VBit, XBit;
    PlanesToValueBits(rv, rx, a.width);
    PlanesToValueWidth(rv, rx, a.width);
    WideBits(a);
    WideBits(b);
    forall i: nat | i < r.width ensures GetBit(r, i) == Table(op, GetBit(a, i), GetBit(b, i)) {
      var j, k := i / 64, i % 64;
      WideLaneEncodes(op, a.storage.vals[j], a.storage.xzs[j], b.storage.vals[j], b.storage.xzs[j], k);
    }
  }

  lemma PlanesToValueWidth(val: seq<Word>, xz: seq<Word>, w: nat)
    requires |val| == |xz| == NWords(w)
    ensures PlanesToValue(val, xz, w).width == w && !PlanesToValue(val, xz, w).signed
  {}

  /** Mixed storage: bit by bit. */
  method BitwiseBits(op: Op, a: Value, b: Value) returns (r: Value)
    requires Valid(a) && Valid(b) && Max(a.width, b.width) > 64
    ensures Tabulated(r, op, a, b) && !r.signed
  {
    hide Bit, WBit, VBit, XBit, Pow2, Masked, ToNat, Table, ValueBit, UnknownBit, MaskedWords;
    var w := Max(a.width, b.width);
    var p := new WidePlanes.Zeroed(w);
    for i := 0 to w
      invariant fresh(p) && p.Valid() && p.nbits == w
      invariant forall k: nat :: WBit(p.val, k) == (k < i && ValueBit(Table(op, GetBit(a, k), GetBit(b, k))))
      invariant forall k: nat :: WBit(p.xz, k) == (k < i && UnknownBit(Table(op, GetBit(a, k), GetBit(b, k))))
    {
      p.Set(i, Table(op, GetBit(a, i), GetBit(b, i)));
    }
    r := Value(Wide(p.val, p.xz), w, false);
    WideValid(p.val, p.xz, w, false);
    WideBits(r);
    forall i: nat | i < w ensures GetBit(r, i) == Table(op, GetBit(a, i), GetBit(b, i)) {
      LogicRoundTrip(Table(op, GetBit(a, i), GetBit(b, i)));
    }
  }

  lemma LogicRoundTrip(t: LogicBit)
    ensures ToLogic(ValueBit(t), UnknownBit(t)) == t
  {}

  /** Bit inversion; x and z give x. */
  function NotBit(a: LogicBit): LogicBit {
    match a
    case Zero => One
    case One => Zero
    case _ => X
  }

  method BitwiseNot(a: Value) returns (r: Value)
    requires Valid(a)
    ensures Valid(r) && r.width == a.width && r.signed == a.signed
    ensures forall i: nat :: i < a.width ==> GetBit(r, i) == NotBit(GetBit(a, i))
  {
    hide Bit, WBit, VBit, XBit, Pow2, Mask, Masked, ToNat, MaskedWords;
    HighClear(a);
    if a.storage.Inline? {
      var val, xz := a.storage.val, a.storage.xz;
      r := a.(storage := Inline(And64(And64(Not64(val), Not64(xz)), Mask(a.width)), xz));
      InlineBits(a);
      InlineBits(r);
      NarrowValid(r.storage.val, r.storage.xz, a.width, a.signed);
    } else {
      var p := new WidePlanes.Zeroed(a.width);
      for i := 0 to a.width
        invariant fresh(p) && p.Valid() && p.nbits == a.width
        invariant forall k: nat :: WBit(p.val, k) == (k < i && ValueBit(NotBit(GetBit(a, k))))
        invariant forall k: nat :: WBit(p.xz, k) == (k < i && UnknownBit(NotBit(GetBit(a, k))))
      {
        p.Set(i, NotBit(GetBit(a, i)));
      }
      r := Value(Wide(p.val, p.xz), a.width, a.signed);
      WideValid(p.val, p.xz, a.width, a.signed);
      WideBits(r);
    }
  }
}
