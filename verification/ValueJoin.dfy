/** Concatenation, replication and range selection. */
module ValueJoin {
  import opened WordBits
  import opened WordVec
  import opened Planes
  import opened Values
  import opened ValueMove

  /* ---- concatenation: the last operand is the least significant ---- */

  function TotalWidth(vs: seq<Value>): nat {
    if |vs| == 0 then 0 else TotalWidth(vs[..|vs| - 1]) + vs[|vs| - 1].width
  }

  ghost predicate JoinV(vs: seq<Value>, i: nat) {
    |vs| > 0 &&
    var last := vs[|vs| - 1];
    if i < last.width then VBit(last, i) else JoinV(vs[..|vs| - 1], i - last.width)
  }

  ghost predicate JoinX(vs: seq<Value>, i: nat) {
    |vs| > 0 &&
    var last := vs[|vs| - 1];
    if i < last.width then XBit(last, i) else JoinX(vs[..|vs| - 1], i - last.width)
  }

  /** The first `w` bits of the join of `vs`. */
  ghost predicate Joins(r: Value, vs: seq<Value>, w: nat) {
    && Valid(r) && r.width == w && !r.signed
    && (forall i: nat :: VBit(r, i) == (i < w && JoinV(vs, i)))
    && (forall i: nat :: XBit(r, i) == (i < w && JoinX(vs, i)))
  }

  /** The operands from `j` on fill the first `offset` bits; those before come above. */
  ghost predicate Remaining(vs: seq<Value>, j: nat, offset: nat) {
    && j <= |vs| && offset + TotalWidth(vs[..j]) == TotalWidth(vs)
    && (forall i: nat :: i >= offset ==> JoinV(vs, i) == JoinV(vs[..j], i - offset))
    && (forall i: nat :: i >= offset ==> JoinX(vs, i) == JoinX(vs[..j], i - offset))
  }

  lemma RemainingStart(vs: seq<Value>)
    ensures Remaining(vs, |vs|, 0)
  {
    assert vs[..|vs|] == vs;
  }

  /** Stepping over operand `j - 1` appends its bits at `offset`. */
  lemma RemainingStep(vs: seq<Value>, j: nat, offset: nat)
    requires Remaining(vs, j, offset) && j > 0
    ensures Remaining(vs, j - 1, offset + vs[j - 1].width)
    ensures forall i: nat | offset <= i < offset + vs[j - 1].width :: JoinV(vs, i) == VBit(vs[j - 1], i - offset)
    ensures forall i: nat | offset <= i < offset + vs[j - 1].width :: JoinX(vs, i) == XBit(vs[j - 1], i - offset)
  {
    hide VBit, XBit;
    var pre := vs[..j];
    assert pre[..j - 1] == vs[..j - 1] && pre[j - 1] == vs[j - 1];
    var o := offset + vs[j - 1].width;
    forall i: nat | i >= o
      ensures JoinV(vs, i) == JoinV(vs[..j - 1], i - o) && JoinX(vs, i) == JoinX(vs[..j - 1], i - o)
    {
      assert JoinV(pre, i - offset) == JoinV(vs[..j - 1], i - offset - vs[j - 1].width);
      assert JoinX(pre, i - offset) == JoinX(vs[..j - 1], i - offset - vs[j - 1].width);
    }
  }

  /** A partial plane holding the join of what has been appended so far. */
  ghost predicate Gathered(v: nat, x: nat, vs: seq<Value>, offset: nat) {
    && (forall i: nat :: Bit(v, i) == (i < offset && JoinV(vs, i)))
    && (forall i: nat :: Bit(x, i) == (i < offset && JoinX(vs, i)))
  }

  /** Appending one operand's planes with `out |= plane << offset`. */
  lemma GatherStep(v: nat, x: nat, vs: seq<Value>, j: nat, offset: nat, pv: nat, px: nat)
    requires Remaining(vs, j, offset) && j > 0 && Valid(vs[j - 1]) && Gathered(v, x, vs, offset)
    requires pv == ValPlane(vs[j - 1]) && px == XzPlane(vs[j - 1])
    ensures Gathered(Or(v, Shl(pv, offset)), Or(x, Shl(px, offset)), vs, offset + vs[j - 1].width)
  {
    hide Bit, Or, Shl, VBit, XBit, JoinV, JoinX, Valid;
    RemainingStep(vs, j, offset);
    BitViews(vs[j - 1]);
    HighClear(vs[j - 1]);
    var o := offset + vs[j - 1].width;
    forall i: nat
      ensures Bit(Or(v, Shl(pv, offset)), i) == (i < o && JoinV(vs, i))
      ensures Bit(Or(x, Shl(px, offset)), i) == (i < o && JoinX(vs, i))
    {
      if i >= offset {
        assert VBit(vs[j - 1], i - offset) == Bit(pv, i - offset);
        assert XBit(vs[j - 1], i - offset) == Bit(px, i - offset);
      }
    }
  }

  lemma NothingGathered(vs: seq<Value>)
    ensures Gathered(0, 0, vs, 0)
  {
    BitsOfZero();
  }

  /** Up to 64 bits: one register per plane. */
  method JoinNarrow(vs: seq<Value>) returns (r: Value)
    requires (forall v :: v in vs ==> Valid(v)) && TotalWidth(vs) <= 64
    ensures Joins(r, vs, TotalWidth(vs))
  {
    hide Bit, Mask, Pow2, TotalWidth, Gathered, Remaining, Or, Shl, Shl64, Low, Valid, ValPlane, XzPlane, RawBits;
    var v: Word, x: Word, offset: nat := 0, 0, 0;
    RemainingStart(vs);
    NothingGathered(vs);
    for j := |vs| downto 0
      invariant Remaining(vs, j, offset) && Gathered(v, x, vs, offset)
    {
      var val := vs[j];
      NarrowPart(vs, j, offset);
      RemainingStep(vs, j + 1, offset);
      if val.width == 0 {
        SkipEmpty(v, x, vs, offset);
        continue;
      }
      GatherStep(v, x, vs, j + 1, offset, ValPlane(val), XzPlane(val));
      GatherFits(val, v, x, offset);
      var raw := RawBits(val);
      v := Or64(v, Shl64(And64(raw.0, Mask(val.width)), offset));
      x := Or64(x, Shl64(And64(raw.1, Mask(val.width)), offset));
      offset := offset + val.width;
    }
    RemainingEnd(vs, offset);
    r := Value(Inline(v, x), offset, false);
    NarrowJoined(v, x, vs, offset);
  }

  lemma SkipEmpty(v: nat, x: nat, vs: seq<Value>, offset: nat)
    requires Gathered(v, x, vs, offset)
    ensures Gathered(v, x, vs, offset + 0)
  {}

  lemma RemainingEnd(vs: seq<Value>, offset: nat)
    requires Remaining(vs, 0, offset)
    ensures offset == TotalWidth(vs)
  {
    assert vs[..0] == [];
  }

  /** What is left still fits. */
  lemma NarrowPart(vs: seq<Value>, j: nat, offset: nat)
    requires Remaining(vs, j + 1, offset)
    ensures offset + vs[j].width <= TotalWidth(vs)
  {
    assert vs[..j + 1][..j] == vs[..j] && vs[..j + 1][j] == vs[j];
  }

  /** The low word of each plane. */
  function RawBits(v: Value): (Word, Word) {
    match v.storage
    case Inline(val, xz) => (val, xz)
    case Wide(vals, xzs) => (WordAt(vals, 0), WordAt(xzs, 0))
  }

  /** Within 64 bits the masked and shifted registers are the exact planes. */
  lemma GatherFits(val: Value, v: Word, x: Word, offset: nat)
    requires Valid(val) && 0 < val.width && offset + val.width <= 64
    ensures Or64(v, Shl64(And64(RawBits(val).0, Mask(val.width)), offset)) == Or(v, Shl(ValPlane(val), offset))
    ensures Or64(x, Shl64(And64(RawBits(val).1, Mask(val.width)), offset)) == Or(x, Shl(XzPlane(val), offset))
  {
    PlaneFits(val.storage.val, val.width, offset);
    PlaneFits(val.storage.xz, val.width, offset);
  }

  lemma PlaneFits(p: Word, w: nat, offset: nat)
    requires p < Pow2(w) && 0 < w && offset + w <= 64
    ensures Shl64(And64(p, Mask(w)), offset) == Shl(p, offset)
  {
    hide Bit, Mask, Pow2, And, Shl, Low;
    BaseIsPow2();
    HighBitsClear(p, w);
    var a, b := Shl64(And64(p, Mask(w)), offset), Shl(p, offset);
    BoundFromBits(b, 64);
    SameBits(a, b, 64);
  }

  lemma NarrowJoined(v: Word, x: Word, vs: seq<Value>, w: nat)
    requires Gathered(v, x, vs, w) && w <= 64
    ensures Joins(Value(Inline(v, x), w, false), vs, w)
  {
    NarrowValid(v, x, w, false);
  }

  /** 65 to 128 bits: one double word per plane. */
  method JoinMid(vs: seq<Value>) returns (r: Value)
    requires (forall v :: v in vs ==> Valid(v)) && 64 < TotalWidth(vs) <= 128
    ensures Joins(r, vs, TotalWidth(vs))
  {
    hide Bit, Pow2, TotalWidth, Gathered, Remaining, Or, Shl, Valid, ValPlane, XzPlane;
    var v: nat, x: nat, offset: nat := 0, 0, 0;
    RemainingStart(vs);
    NothingGathered(vs);
    for j := |vs| downto 0
      invariant Remaining(vs, j, offset) && Gathered(v, x, vs, offset)
    {
      var val := vs[j];
      RemainingStep(vs, j + 1, offset);
      if val.width == 0 {
        SkipEmpty(v, x, vs, offset);
        continue;
      }
      GatherStep(v, x, vs, j + 1, offset, ValPlane(val), XzPlane(val));
      v, x, offset := Or(v, Shl(ValPlane(val), offset)), Or(x, Shl(XzPlane(val), offset)), offset + val.width;
    }
    RemainingEnd(vs, offset);
    MidJoined(v, x, vs, offset);
    r := Value(Wide([v % BASE, v / BASE], [x % BASE, x / BASE]), offset, false);
  }

  lemma MidJoined(v: nat, x: nat, vs: seq<Value>, w: nat)
    requires Gathered(v, x, vs, w) && 64 < w <= 128
    ensures v / BASE < BASE && x / BASE < BASE
    ensures Joins(Value(Wide([v % BASE, v / BASE], [x % BASE, x / BASE]), w, false), vs, w)
  {
    hide Bit, WBit, JoinV, JoinX;
    TwoWordPlane(v, w);
    TwoWordPlane(x, w);
    WideValid([v % BASE, v / BASE], [x % BASE, x / BASE], w, false);
  }

  lemma TwoWordPlane(n: nat, w: nat)
    requires 64 < w <= 128 && forall i: nat :: i >= w ==> !Bit(n, i)
    ensures n / BASE < BASE && Masked([n % BASE, n / BASE], w)
    ensures forall i: nat :: WBit([n % BASE, n / BASE], i) == Bit(n, i)
  {
    hide Bit, WBit, Pow2;
    BoundFromBits(n, w);
    Pow2Mono(w, 128);
    Pow2Add(64, 64);
    BaseIsPow2();
    var ws := [n % BASE, n / BASE];
    TwoWordValue(n);
    PlaneNumber(ws);
  }

  lemma TwoWordValue(n: nat)
    requires n / BASE < BASE
    ensures ToNat([n % BASE, n / BASE]) == n
  {
    var ws := [n % BASE, n / BASE];
    assert Val(ws, 1) == Val(ws, 0) + Scale(ws[0], 0);
    assert Scale(ws[1], 1) == BASE * Scale(ws[1], 0);
  }

  /** Plane `now` is plane `was` with `take` bits of `val` at `len`, for both planes. */
  ghost predicate Appended(wasV: seq<Word>, wasX: seq<Word>, nowV: seq<Word>, nowX: seq<Word>, len: nat, val: Value, take: nat) {
    && (forall i: nat :: WBit(nowV, i) == if len <= i < len + take then VBit(val, i - len) else WBit(wasV, i))
    && (forall i: nat :: WBit(nowX, i) == if len <= i < len + take then XBit(val, i - len) else WBit(wasX, i))
  }

  /** Lay the low `take` bits of `val` at `len`, 64 bits at a time. */
  method AppendPart(p: WidePlanes, len: nat, val: Value, take: nat)
    requires p.Valid() && Valid(val) && take <= val.width && len + take <= p.nbits
    modifies p
    ensures p.Valid() && Appended(old(p.val), old(p.xz), p.val, p.xz, len, val, take)
  {
    hide Bit, WBit, VBit, XBit, Pow2, Masked, Extract, Spliced, Appended;
    NothingAppended(p.val, p.xz, len, val);
    var j: nat := 0;
    while j < take
      invariant j <= take && p.Valid() && Appended(old(p.val), old(p.xz), p.val, p.xz, len, val, j)
    {
      var n := Min(take - j, 64);
      var e := Extract(val, j, n);
      ghost var v0, x0 := p.val, p.xz;
      p.Splice64(len + j, e.0, e.1, n);
      AppendStep(old(p.val), old(p.xz), v0, x0, p.val, p.xz, len, val, j, n, p.nbits);
      j := j + n;
    }
  }

  lemma NothingAppended(v: seq<Word>, x: seq<Word>, len: nat, val: Value)
    ensures Appended(v, x, v, x, len, val, 0)
  {}

  lemma AppendStep(v: seq<Word>, x: seq<Word>, v0: seq<Word>, x0: seq<Word>, v1: seq<Word>, x1: seq<Word>,
                   len: nat, val: Value, j: nat, n: nat, nbits: nat)
    requires Appended(v, x, v0, x0, len, val, j) && n <= 64 && len + j + n <= nbits
    requires Spliced(v0, v1, len + j, Extract(val, j, n).0, n, nbits)
    requires Spliced(x0, x1, len + j, Extract(val, j, n).1, n, nbits)
    ensures Appended(v, x, v1, x1, len, val, j + n)
  {
    hide Bit, WBit, VBit, XBit, Extract;
    ExtractBits(val, j, n);
    forall i: nat | len + j <= i < len + j + n
      ensures WBit(v1, i) == VBit(val, i - len) && WBit(x1, i) == XBit(val, i - len)
    {
      assert Bit(Extract(val, j, n).0, i - (len + j)) == VBit(val, j + (i - (len + j)));
      assert Bit(Extract(val, j, n).1, i - (len + j)) == XBit(val, j + (i - (len + j)));
      assert j + (i - (len + j)) == i - len;
    }
  }

  /** The planes hold the first `len` bits of the join. */
  ghost predicate JoinedPlanes(v: seq<Word>, x: seq<Word>, vs: seq<Value>, len: nat) {
    && (forall i: nat :: WBit(v, i) == (i < len && JoinV(vs, i)))
    && (forall i: nat :: WBit(x, i) == (i < len && JoinX(vs, i)))
  }

  lemma JoinedStep(v: seq<Word>, x: seq<Word>, v1: seq<Word>, x1: seq<Word>, vs: seq<Value>, j: nat, len: nat, take: nat)
    requires JoinedPlanes(v, x, vs, len) && Remaining(vs, j, len) && j > 0 && take <= vs[j - 1].width
    requires Appended(v, x, v1, x1, len, vs[j - 1], take)
    ensures JoinedPlanes(v1, x1, vs, len + take)
  {
    hide WBit, VBit, XBit, JoinV, JoinX;
    RemainingStep(vs, j, len);
  }

  /** Above 128 bits: planes filled 64 bits at a time, cut at the width cap. */
  method JoinWide(vs: seq<Value>) returns (r: Value)
    requires (forall v :: v in vs ==> Valid(v)) && TotalWidth(vs) > 128
    ensures Joins(r, vs, CapWidth(TotalWidth(vs)))
  {
    hide Bit, WBit, VBit, XBit, Pow2, Masked, TotalWidth, JoinedPlanes, Remaining, Appended, Valid, JoinV, JoinX, ToNat;
    var total := TotalWidth(vs);
    var capped := CapWidth(total);
    var p := new WidePlanes.Zeroed(capped);
    var len: nat := 0;
    RemainingStart(vs);
    NothingJoined(p.val, p.xz, vs);
    for j := |vs| downto 0
      invariant fresh(p) && p.Valid() && p.nbits == capped && len <= capped
      invariant JoinedPlanes(p.val, p.xz, vs, len)
      invariant (capped != total && len == capped) || Remaining(vs, j, len)
    {
      var take := vs[j].width;
      if capped != total {
        var room := capped - len;
        if room == 0 { break; }
        if take > room { take := room; }
      }
      NarrowPart(vs, j, len);
      RemainingStep(vs, j + 1, len);
      ghost var v0, x0 := p.val, p.xz;
      AppendPart(p, len, vs[j], take);
      JoinedStep(v0, x0, p.val, p.xz, vs, j + 1, len, take);
      len := len + take;
    }
    if capped == total || len != capped { RemainingEnd(vs, len); }
    r := Value(Wide(p.val, p.xz), capped, false);
    JoinedValue(p.val, p.xz, vs, capped);
  }

  lemma NothingJoined(v: seq<Word>, x: seq<Word>, vs: seq<Value>)
    requires forall i: nat :: !WBit(v, i) && !WBit(x, i)
    ensures JoinedPlanes(v, x, vs, 0)
  {}

  lemma JoinedValue(v: seq<Word>, x: seq<Word>, vs: seq<Value>, w: nat)
    requires JoinedPlanes(v, x, vs, w) && 64 < w <= MAX_WIDTH && |v| == |x| == NWords(w) && Masked(v, w) && Masked(x, w)
    ensures Joins(Value(Wide(v, x), w, false), vs, w)
  {
    WideValid(v, x, w, false);
  }

  /** `concat_refs`: the operands joined, `vs[0]` most significant, cut at the width cap. */
  method ConcatRefs(vs: seq<Value>) returns (r: Value)
    requires (forall v :: v in vs ==> Valid(v)) && TotalWidth(vs) < U32
    ensures Joins(r, vs, CapWidth(TotalWidth(vs)))
  {
    hide Joins, TotalWidth, Valid;
    var total := TotalWidth(vs);
    if total <= 64 { r := JoinNarrow(vs); }
    else if total <= 128 { r := JoinMid(vs); }
    else { r := JoinWide(vs); }
  }

  /* ---- replication ---- */

  /** `n` copies of `v`, as operands of a concatenation. */
  function Repeat(v: Value, n: nat): (vs: seq<Value>)
    ensures |vs| == n && forall x :: x in vs ==> x == v
  {
    seq(n, i => v)
  }

  lemma {:induction false} RepeatJoin(v: Value, n: nat, i: nat)
    requires v.width > 0
    ensures TotalWidth(Repeat(v, n)) == v.width * n
    ensures JoinV(Repeat(v, n), i) == (i < v.width * n && VBit(v, i % v.width))
    ensures JoinX(Repeat(v, n), i) == (i < v.width * n && XBit(v, i % v.width))
    decreases n
  {
    hide VBit, XBit;
    if n > 0 {
      assert Repeat(v, n)[..n - 1] == Repeat(v, n - 1);
      var w := v.width;
      Distribute(w, n - 1, 1);
      RepeatJoin(v, n - 1, if i < w then 0 else i - w);
      if i < w { SmallMod(i, w); } else { ModPeriod(i, w); }
    }
  }

  lemma ModPeriod(i: nat, w: nat)
    requires 0 < w <= i
    ensures (i - w) % w == i % w
  {
    Distribute(w, i / w, -1);
    DivUnique(i - w, w, i / w - 1, i % w);
  }

  /** Bit `i` of `r` is bit `i % v.width` of `v`, below `w`. */
  ghost predicate Replicated(r: Value, v: Value, w: nat)
    requires v.width > 0
  {
    && Valid(r) && r.width == w && !r.signed
    && (forall i: nat :: VBit(r, i) == (i < w && VBit(v, i % v.width)))
    && (forall i: nat :: XBit(r, i) == (i < w && XBit(v, i % v.width)))
  }

  /** An n-fold concatenation is a replication, and conversely. */
  lemma {:induction false} JoinsIffReplicated(r: Value, v: Value, n: nat, w: nat)
    requires v.width > 0 && w <= v.width * n
    ensures Joins(r, Repeat(v, n), w) <==> Replicated(r, v, w)
  {
    hide VBit, XBit, Valid, JoinV, JoinX;
    forall i: nat
      ensures JoinV(Repeat(v, n), i) == (i < v.width * n && VBit(v, i % v.width))
      ensures JoinX(Repeat(v, n), i) == (i < v.width * n && XBit(v, i % v.width))
    {
      RepeatJoin(v, n, i);
    }
  }

  /** `m` copies of the `w`-bit pattern `b`. */
  ghost function Copies(b: nat, w: nat, m: nat): nat {
    if m == 0 then 0 else b + Copies(b, w, m - 1) * Pow2(w)
  }

  lemma {:induction false} CopiesBits(b: nat, w: nat, m: nat, i: nat)
    requires w > 0 && b < Pow2(w)
    ensures Bit(Copies(b, w, m), i) == (i < w * m && Bit(b, i % w))
    decreases m
  {
    hide Bit, Pow2;
    if m == 0 {
      ZeroBit(i);
    } else {
      Distribute(w, m - 1, 1);
      BitsOfSumAt(Copies(b, w, m), b, Copies(b, w, m - 1), w);
      if i < w {
        SmallMod(i, w);
      } else {
        CopiesBits(b, w, m - 1, i - w);
        ModPeriod(i, w);
      }
    }
  }

  lemma {:induction false} CopiesValue(b: nat, w: nat, m: nat)
    ensures Copies(b, w, m) * (Pow2(w) - 1) == b * (Pow2(w * m) - 1)
  {
    if m > 0 {
      CopiesValue(b, w, m - 1);
      Distribute(w, m - 1, 1);
      Pow2Add(w, w * (m - 1));
      CopiesStep(b, Copies(b, w, m - 1), Pow2(w), Pow2(w * (m - 1)));
    } else {
      assert w * m == 0;
    }
  }

  lemma CopiesStep(b: nat, c: nat, p: int, q: int)
    requires c * (p - 1) == b * (q - 1)
    ensures (b + c * p) * (p - 1) == b * (p * q - 1)
  {
    assert (c * p) * (p - 1) == (c * (p - 1)) * p;
    assert (b * (q - 1)) * p == b * (q * p) - b * p;
  }

  /** The constant that lays a `w`-bit period across a word; 0 for periods not dividing 64. */
  function Multiplier(w: nat): Word {
    match w
    case 2 => 0x5555_5555_5555_5555
    case 4 => 0x1111_1111_1111_1111
    case 8 => 0x0101_0101_0101_0101
    case 16 => 0x0001_0001_0001_0001
    case 32 => 0x0000_0001_0000_0001
    case 64 => 1
    case _ => 0
  }

  /** `repeated_word`: one wrapping multiplication. */
  function RepeatedWord(bits: Word, w: nat): Word {
    And64(bits, Mask(w)) * Multiplier(w) % BASE
  }

  /** The multiplier of period `w` spells `64 / w` ones, `w` bits apart. */
  lemma MultiplierIsCopies(b: nat, w: nat, m: nat, c: nat)
    requires w > 0 && b < Pow2(w) && w * m == 64 && c * (Pow2(w) - 1) == BASE - 1
    ensures (b * c) % BASE == Copies(b, w, m) < BASE
  {
    hide Pow2;
    BaseIsPow2();
    var p := Pow2(w) - 1;
    CopiesValue(b, w, m);
    assert b * (c * p) == (b * c) * p;
    Pow2Mono(0, w);
    CancelRight(b * c, Copies(b, w, m), p);
    forall i: nat | i >= 64 ensures !Bit(Copies(b, w, m), i) { CopiesBits(b, w, m, i); }
    BoundFromBits(Copies(b, w, m), 64);
    SmallMod(b * c, BASE);
  }

  lemma CancelRight(x: nat, y: nat, p: int)
    requires x * p == y * p && p > 0
    ensures x == y
  {
    if x < y { MulMono(p, x + 1, y); }
    if y < x { MulMono(p, y + 1, x); }
  }

  lemma PowerTable()
    ensures Pow2(2) == 4 && Pow2(4) == 0x10 && Pow2(8) == 0x100 && Pow2(16) == 0x1_0000 && Pow2(32) == 0x1_0000_0000
  {
    assert Pow2(2) == 4;
    hide Pow2;
    Pow2Add(2, 2);
    Pow2Add(4, 4);
    Pow2Add(8, 8);
    Pow2Add(16, 16);
  }

  lemma MultiplierLaw(w: nat)
    requires Multiplier(w) != 0
    ensures 0 < w <= 64 && w * (64 / w) == 64 && Multiplier(w) * (Pow2(w) - 1) == BASE - 1
  {
    hide Pow2;
    PowerTable();
    BaseIsPow2();
  }

  lemma {:induction false} RepeatedWordBits(b: Word, w: nat, i: nat)
    requires Multiplier(w) != 0 && b < Pow2(w)
    ensures Bit(RepeatedWord(b, w), i) == (i < 64 && Bit(b, i % w))
  {
    hide Bit, Pow2, And, Mask, Multiplier, Copies;
    MultiplierLaw(w);
    MaskIsLow(b, w);
    SmallMod(b, Pow2(w));
    MultiplierIsCopies(b, w, 64 / w, Multiplier(w));
    CopiesBits(b, w, 64 / w, i);
  }

  /** One copy of `s` starting at bit `pos`, seen from a word starting at bit `base`. */
  function PlaceCopy(s: Word, pos: nat, base: nat): Word
    requires pos < base + 64
  {
    if pos >= base then Shl64(s, pos - base) else Shr(s, base - pos)
  }

  /** `ov` holds, of the word at `base`, the bits below copy `k`. */
  ghost predicate CopiesBelow(ov: Word, s: Word, w: nat, base: nat, k: nat)
    requires w > 0
  {
    forall b: nat :: Bit(ov, b) == (b < 64 && base + b < k * w && Bit(s, (base + b) % w))
  }

  lemma CopyPlaced(ov: Word, s: Word, w: nat, base: nat, k: nat)
    requires 0 < w <= 64 && s < Pow2(w) && k * w < base + 64 && CopiesBelow(ov, s, w, base, k)
    ensures CopiesBelow(Or64(ov, PlaceCopy(s, k * w, base)), s, w, base, k + 1)
  {
    hide Bit, Pow2, Or64, Shl64, Shr;
    var pos := k * w;
    NextCopy(k, w);
    forall b: nat ensures Bit(Or64(ov, PlaceCopy(s, pos, base)), b) == (b < 64 && base + b < pos + w && Bit(s, (base + b) % w)) {
      PlacedBit(s, w, pos, base, b);
      if pos <= base + b < pos + w { InCopy(base + b, w, k); }
    }
  }

  lemma PlacedBit(s: Word, w: nat, pos: nat, base: nat, b: nat)
    requires w <= 64 && s < Pow2(w) && pos < base + 64
    ensures Bit(PlaceCopy(s, pos, base), b) == (b < 64 && pos <= base + b < pos + w && Bit(s, base + b - pos))
  {
    hide Bit, Pow2, Shl64, Shr;
    HighBitsClear(s, w);
    if pos < base {
      assert Bit(PlaceCopy(s, pos, base), b) == Bit(s, b + (base - pos));
    } else if b >= pos - base {
      assert b - (pos - base) == base + b - pos;
    }
  }

  lemma InCopy(n: nat, w: nat, k: nat)
    requires w > 0 && k * w <= n < k * w + w
    ensures n % w == n - k * w
  {
    DivUnique(n, w, k, n - k * w);
  }

  /** The word at `base` of a plane of `total` bits, collecting the copies that overlap it. */
  method RepeatWord(s: Word, w: nat, base: nat, total: nat) returns (ov: Word)
    requires 0 < w <= 64 && s < Pow2(w) && base < total
    ensures forall b: nat | b < 64 && base + b < total :: Bit(ov, b) == Bit(s, (base + b) % w)
  {
    hide Bit, Pow2, PlaceCopy;
    var end := Min(base + 64, total);
    var k: nat := base / w;
    Euclidean(base, w);
    ov := 0;
    BitsOfZero();
    while k * w < end
      invariant CopiesBelow(ov, s, w, base, k)
      decreases end - k * w
    {
      CopyPlaced(ov, s, w, base, k);
      NextCopy(k, w);
      ov := Or64(ov, PlaceCopy(s, k * w, base));
      k := k + 1;
    }
  }

  lemma Euclidean(n: nat, w: nat)
    requires w > 0
    ensures (n / w) * w <= n
  {}

  lemma NextCopy(k: nat, w: nat)
    ensures (k + 1) * w == k * w + w
  {}

  /** Both planes of a replicated value agree with the source below `total`. */
  ghost predicate Periodic(ws: seq<Word>, s: Word, w: nat, total: nat)
    requires w > 0
  {
    forall i: nat | i < total :: WBit(ws, i) == Bit(s, i % w)
  }

  /** One plane, by multiplication when the period divides 64, else copy by copy. */
  method RepeatPlane(s: Word, w: nat, total: nat) returns (ws: seq<Word>)
    requires 1 < w <= 64 && s < Pow2(w) && total > 0
    ensures |ws| == NWords(total) && Periodic(ws, s, w, total)
  {
    hide Bit, Pow2, RepeatedWord;
    var n := NWords(total);
    if Multiplier(w) != 0 {
      ws := seq(n, i => RepeatedWord(s, w));
      forall i: nat | i < total ensures WBit(ws, i) == Bit(s, i % w) {
        RepeatedWordBits(s, w, i % 64);
        NestedMod(i, w);
      }
      return;
    }
    ws := [];
    while |ws| < n
      invariant |ws| <= n
      invariant forall i: nat | i < 64 * |ws| && i < total :: WBit(ws, i) == Bit(s, i % w)
    {
      var base := 64 * |ws|;
      var o := RepeatWord(s, w, base, total);
      forall i: nat | i < base + 64 && i < total ensures WBit(ws + [o], i) == Bit(s, i % w) {
        if i < base { assert WBit(ws, i) == Bit(s, i % w); }
        else { assert i / 64 == |ws| && i % 64 == i - base && base + (i - base) == i; }
      }
      ws := ws + [o];
    }
  }

  lemma NestedMod(i: nat, w: nat)
    requires Multiplier(w) != 0
    ensures (i % 64) % w == i % w
  {
    var q := 64 / w;
    assert q * w == 64;
    var d, r := i / 64, i % 64;
    assert i == w * (q * d + r / w) + r % w by { Distribute(w, q * d, r / w); Assoc(w, q, d); }
    DivUnique(i, w, q * d + r / w, r % w);
  }

  /** `replicate`: `n` copies, most significant first like `concat_refs`, cut at the width cap. */
  method Replicate(v: Value, n: nat) returns (r: Value)
    requires Valid(v) && (v.width > 64 ==> v.width * n < U32)
    ensures if n == 0 || v.width == 0 then r == ZeroValue(0)
            else Replicated(r, v, CapWidth(v.width * n)) && Joins(r, Repeat(v, n), CapWidth(v.width * n))
  {
    hide Bit, WBit, VBit, XBit, Pow2, Mask, Uniform, MaskedWords, ToNat;
    if n == 0 || v.width == 0 { return ZeroValue(0); }
    MulMono(v.width, 1, n);
    var w, total := v.width, CapWidth(v.width * n);
    RepeatJoin(v, n, 0);
    if w > 64 {
      r := ConcatRefs(Repeat(v, n));
    } else if w == 1 {
      r := Uniform(total, GetBit(v, 0));
      UniformIs(total, GetBit(v, 0));
      forall i: nat ensures i % 1 == 0 {}
    } else {
      InlineBits(v);
      var val := RepeatPlane(v.storage.val, w, total);
      var xz := RepeatPlane(v.storage.xz, w, total);
      PlanesToValueBits(val, xz, total);
      r := PlanesToValue(val, xz, total);
    }
    JoinsIffReplicated(r, v, n, total);
  }

  /** Two planes cut to `w` bits, inline when they fit a word. */
  function PlanesToValue(val: seq<Word>, xz: seq<Word>, w: nat): Value
    requires |val| == |xz| == NWords(w)
  {
    if w <= 64 then Value(Inline(And64(val[0], Mask(w)), And64(xz[0], Mask(w))), w, false)
    else Value(Wide(MaskedWords(val, w), MaskedWords(xz, w)), w, false)
  }

  lemma PlanesToValueBits(val: seq<Word>, xz: seq<Word>, w: nat)
    requires |val| == |xz| == NWords(w) && 0 < w <= MAX_WIDTH
    ensures Valid(PlanesToValue(val, xz, w))
    ensures forall i: nat :: VBit(PlanesToValue(val, xz, w), i) == (i < w && WBit(val, i))
    ensures forall i: nat :: XBit(PlanesToValue(val, xz, w), i) == (i < w && WBit(xz, i))
  {
    hide Bit, Mask, MaskedWords, Pow2;
    var r := PlanesToValue(val, xz, w);
    if w <= 64 {
      InlineBits(r);
      NarrowValid(r.storage.val, r.storage.xz, w, false);
    } else {
      MaskedWordsBits(val, w);
      MaskedWordsBits(xz, w);
      WideBits(r);
      WideValid(MaskedWords(val, w), MaskedWords(xz, w), w, false);
    }
  }

  /* ---- range selection ---- */

  /** The `w` bits of `v` from `lo` up; positions past the vector read x. */
  ghost predicate Selected(r: Value, v: Value, lo: nat, w: nat) {
    && Valid(r) && r.width == w && !r.signed
    && (forall i: nat :: VBit(r, i) == (i < w && VBit(v, lo + i)))
    && (forall i: nat :: XBit(r, i) == (i < w && (lo + i >= v.width || XBit(v, lo + i))))
  }

  /** As `Selected`, but positions past the vector read 0. */
  ghost predicate SelectedZext(r: Value, v: Value, lo: nat, w: nat) {
    && Valid(r) && r.width == w && !r.signed
    && (forall i: nat :: VBit(r, i) == (i < w && VBit(v, lo + i)))
    && (forall i: nat :: XBit(r, i) == (i < w && XBit(v, lo + i)))
  }

  /** The slices `v[lo +: w]` a word at a time. */
  function GatherPlane(ws: seq<Word>, lo: nat, w: nat): seq<Word> {
    MaskedWords(seq(NWords(w), i requires 0 <= i => WordFrom(ws, lo + 64 * i)), w)
  }

  lemma GatherPlaneBits(ws: seq<Word>, lo: nat, w: nat)
    requires w > 0
    ensures |GatherPlane(ws, lo, w)| == NWords(w) && Masked(GatherPlane(ws, lo, w), w)
    ensures forall i: nat :: WBit(GatherPlane(ws, lo, w), i) == (i < w && WBit(ws, lo + i))
  {
    hide Bit, WordFrom, MaskedWords;
    var g := seq(NWords(w), i requires 0 <= i => WordFrom(ws, lo + 64 * i));
    MaskedWordsBits(g, w);
    forall i: nat ensures WBit(GatherPlane(ws, lo, w), i) == (i < w && WBit(ws, lo + i)) {
      if i < w {
        WordFromBits(ws, lo + 64 * (i / 64));
        assert lo + 64 * (i / 64) + i % 64 == lo + i;
        assert WBit(g, i) == Bit(g[i / 64], i % 64);
      }
    }
  }

  method RangeSelectZext(v: Value, lo: nat, w: nat) returns (r: Value)
    requires Valid(v) && 0 < w <= MAX_WIDTH
    ensures SelectedZext(r, v, lo, w)
  {
    hide Bit, WBit, VBit, XBit, Pow2, Mask, GatherPlane, ExtractPlane, Masked;
    if v.storage.Inline? && w <= 64 && lo < 64 {
      var s := v.storage;
      r := Value(Inline(And64(Shr(s.val, lo), Mask(w)), And64(Shr(s.xz, lo), Mask(w))), w, false);
      InlineBits(v);
      InlineBits(r);
      NarrowValid(r.storage.val, r.storage.xz, w, false);
    } else if v.storage.Wide? && w > 64 {
      var s := v.storage;
      GatherPlaneBits(s.vals, lo, w);
      GatherPlaneBits(s.xzs, lo, w);
      r := Value(Wide(GatherPlane(s.vals, lo, w), GatherPlane(s.xzs, lo, w)), w, false);
      WideBits(v);
      WideBits(r);
      WideValid(r.storage.vals, r.storage.xzs, w, false);
    } else if v.storage.Wide? {
      var s := v.storage;
      ExtractPlaneBits(s.vals, lo, w);
      ExtractPlaneBits(s.xzs, lo, w);
      r := Value(Inline(ExtractPlane(s.vals, lo, w), ExtractPlane(s.xzs, lo, w)), w, false);
      WideBits(v);
      InlineBits(r);
      NarrowValid(r.storage.val, r.storage.xz, w, false);
    } else {
      r := SelectBits(v, lo, w);
    }
  }

  /** The per-bit loop. */
  method SelectBits(v: Value, lo: nat, w: nat) returns (r: Value)
    requires Valid(v) && 0 < w <= MAX_WIDTH
    ensures SelectedZext(r, v, lo, w)
  {
    hide Bit, WBit, VBit, XBit, Pow2, Masked, MaskedWords, Mask;
    HighClear(v);
    var p := new WidePlanes.Zeroed(w);
    for i := 0 to w
      invariant fresh(p) && p.Valid() && p.nbits == w
      invariant forall k: nat :: WBit(p.val, k) == (k < i && VBit(v, lo + k))
      invariant forall k: nat :: WBit(p.xz, k) == (k < i && XBit(v, lo + k))
    {
      p.Set(i, GetBit(v, lo + i));
    }
    r := PlanesToValue(p.val, p.xz, w);
    PlanesToValueBits(p.val, p.xz, w);
  }

  method RangeSelect(v: Value, left: nat, right: nat) returns (r: Value)
    requires Valid(v)
    ensures var lo, w := Min(left, right), Max(left, right) - Min(left, right) + 1;
      if w > MAX_WIDTH then r == AllUnknown(Min(w, Max(v.width, 1))) else Selected(r, v, lo, w)
  {
    hide Bit, WBit, VBit, XBit, Pow2, Mask, Uniform, Masked;
    var lo, hi := Min(left, right), Max(left, right);
    var w := hi - lo + 1;
    if v.storage.Inline? && hi < 64 && hi < v.width {
      var s := v.storage;
      r := Value(Inline(And64(Shr(s.val, lo), Mask(w)), And64(Shr(s.xz, lo), Mask(w))), w, false);
      InlineBits(v);
      InlineBits(r);
      NarrowValid(r.storage.val, r.storage.xz, w, false);
      return;
    }
    if w > MAX_WIDTH { return AllUnknown(Min(w, Max(v.width, 1))); }
    HighClear(v);
    r := RangeSelectZext(v, lo, w);
    if lo >= v.width {
      AllUnknownBits(w);
      r := AllUnknown(w);
    } else if lo + w > v.width {
      r := OverlayX(v, r, lo, w);
    }
  }

  /** A partial overhang: the low bits are real, the rest read x. */
  method OverlayX(v: Value, z: Value, lo: nat, w: nat) returns (r: Value)
    requires Valid(v) && lo < v.width < lo + w && w <= MAX_WIDTH && SelectedZext(z, v, lo, w)
    ensures Selected(r, v, lo, w)
  {
    hide Bit, WBit, VBit, XBit, Pow2, Masked, MaskedWords, Mask, ToNat;
    HighClear(v);
    var p := new WidePlanes.Zeroed(w);
    for i := 0 to w
      invariant fresh(p) && p.Valid() && p.nbits == w
      invariant forall k: nat :: WBit(p.val, k) == (k < i && VBit(v, lo + k))
      invariant forall k: nat :: WBit(p.xz, k) == (k < i && (lo + k >= v.width || XBit(v, lo + k)))
    {
      p.Set(i, if lo + i >= v.width then X else GetBit(z, i));
    }
    r := PlanesToValue(p.val, p.xz, w);
    PlanesToValueBits(p.val, p.xz, w);
  }

  /** Selecting an operand's range out of a concatenation gives the operand back. */
  lemma {:induction false} SelectOfJoin(joined: Value, vs: seq<Value>, j: nat, r: Value)
    requires j < |vs| && Valid(vs[j]) && vs[j].width > 0
    requires Joins(joined, vs, TotalWidth(vs)) && Selected(r, joined, TotalWidth(vs[j + 1..]), vs[j].width)
    ensures r == vs[j].(signed := false)
  {
    hide VBit, XBit, JoinV, JoinX, Valid;
    var off := TotalWidth(vs[j + 1..]);
    SuffixRemaining(vs, j + 1);
    RemainingStep(vs, j + 1, off);
    NarrowPart(vs, j, off);
    SignIsFlag(vs[j], false);
    var v := vs[j].(signed := false);
    forall i: nat | i < v.width ensures VBit(r, i) == VBit(v, i) && XBit(r, i) == XBit(v, i) {
      assert VBit(joined, off + i) == JoinV(vs, off + i) == VBit(vs[j], (off + i) - off);
      assert XBit(joined, off + i) == JoinX(vs, off + i) == XBit(vs[j], (off + i) - off);
    }
    SameValue(r, v);
  }

  lemma {:induction false} SuffixRemaining(vs: seq<Value>, j: nat)
    requires j <= |vs|
    ensures Remaining(vs, j, TotalWidth(vs[j..]))
    decreases |vs| - j
  {
    if j == |vs| {
      RemainingStart(vs);
    } else {
      SuffixRemaining(vs, j + 1);
      RemainingStep(vs, j + 1, TotalWidth(vs[j + 1..]));
      HeadWidth(vs[j..]);
      assert vs[j..][1..] == vs[j + 1..];
    }
  }

  lemma {:induction false} HeadWidth(vs: seq<Value>)
    requires |vs| > 0
    ensures TotalWidth(vs) == vs[0].width + TotalWidth(vs[1..])
  {
    if |vs| > 1 {
      HeadWidth(vs[..|vs| - 1]);
      assert vs[1..][..|vs| - 2] == vs[..|vs| - 1][1..];
    }
  }
}
