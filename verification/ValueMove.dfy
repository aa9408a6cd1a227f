/** Word-level data movement between values, against its bit-level meaning. */
module ValueMove {
  import opened WordBits
  import opened WordVec
  import opened Planes
  import opened Values

  /* ---- the bits of a value ---- */

  /** Bit `i` of the value plane. */
  predicate VBit(v: Value, i: nat) {
    match v.storage
    case Inline(val, _) => Bit(val, i)
    case Wide(vals, _) => WBit(vals, i)
  }

  /** Bit `i` of the unknown plane. */
  predicate XBit(v: Value, i: nat) {
    match v.storage
    case Inline(_, xz) => Bit(xz, i)
    case Wide(_, xzs) => WBit(xzs, i)
  }

  lemma BitViews(v: Value)
    ensures forall i: nat :: VBit(v, i) == Bit(ValPlane(v), i)
    ensures forall i: nat :: XBit(v, i) == Bit(XzPlane(v), i)
  {
    hide Bit, WBit;
    match v.storage {
      case Inline(_, _) =>
      case Wide(vals, xzs) =>
        PlaneNumber(vals);
        PlaneNumber(xzs);
    }
  }

  /** No bit of either plane at or above the width. */
  lemma HighClear(v: Value)
    requires Valid(v)
    ensures forall i: nat :: i >= v.width ==> !VBit(v, i) && !XBit(v, i)
  {
    hide Bit, WBit, VBit, XBit;
    BitViews(v);
    HighBitsClear(ValPlane(v), v.width);
    HighBitsClear(XzPlane(v), v.width);
  }

  /** A value is its width, its signedness and its bits. */
  lemma {:induction false} SameValue(a: Value, b: Value)
    requires Valid(a) && Valid(b) && a.width == b.width && a.signed == b.signed
    requires forall i: nat :: i < a.width ==> VBit(a, i) == VBit(b, i) && XBit(a, i) == XBit(b, i)
    ensures a == b
  {
    hide Bit, WBit, VBit, XBit, ToNat, Pow2;
    BitViews(a);
    BitViews(b);
    forall i: nat | i < a.width
      ensures Bit(ValPlane(a), i) == Bit(ValPlane(b), i) && Bit(XzPlane(a), i) == Bit(XzPlane(b), i)
    {
      assert VBit(a, i) == VBit(b, i) && XBit(a, i) == XBit(b, i);
    }
    SameBits(ValPlane(a), ValPlane(b), a.width);
    SameBits(XzPlane(a), XzPlane(b), a.width);
    if a.width > 64 {
      SameWords(a.storage.vals, b.storage.vals);
      SameWords(a.storage.xzs, b.storage.xzs);
    }
  }

  /** Equal numbers over equally many words are equal vectors. */
  lemma SameWords(a: seq<Word>, b: seq<Word>)
    requires |a| == |b| && ToNat(a) == ToNat(b)
    ensures a == b
  {
    hide Bit, WBit, Val;
    PlaneNumber(a);
    PlaneNumber(b);
    BaseIsPow2();
    forall j | 0 <= j < |a| ensures a[j] == b[j] {
      forall k: nat | k < 64 ensures Bit(a[j], k) == Bit(b[j], k) { SameWordBit(a, b, j, k); }
      SameBits(a[j], b[j], 64);
    }
  }

  lemma SameWordBit(a: seq<Word>, b: seq<Word>, j: nat, k: nat)
    requires j < |a| == |b| && k < 64 && WBit(a, 64 * j + k) == WBit(b, 64 * j + k)
    ensures Bit(a[j], k) == Bit(b[j], k)
  {
    assert (64 * j + k) / 64 == j && (64 * j + k) % 64 == k;
  }

  /** A wide value assembled from two masked planes. */
  lemma WideValid(vals: seq<Word>, xzs: seq<Word>, width: nat, signed: bool)
    requires 64 < width <= MAX_WIDTH && |vals| == |xzs| == NWords(width) && Masked(vals, width) && Masked(xzs, width)
    ensures Valid(Value(Wide(vals, xzs), width, signed))
  {
    MaskedIff(vals, width);
    MaskedIff(xzs, width);
  }

  lemma WideMasked(v: Value)
    requires Valid(v) && v.width > 64
    ensures Masked(v.storage.vals, v.width) && Masked(v.storage.xzs, v.width)
  {
    MaskedIff(v.storage.vals, v.width);
    MaskedIff(v.storage.xzs, v.width);
  }

  lemma NarrowValid(val: Word, xz: Word, width: nat, signed: bool)
    requires width <= 64
    requires forall i: nat :: i >= width ==> !Bit(val, i) && !Bit(xz, i)
    ensures Valid(Value(Inline(val, xz), width, signed))
  {
    BoundFromBits(val, width);
    BoundFromBits(xz, width);
  }

  /* ---- copy_bits_from ---- */

  /** `r` is `dst` with `n` bits of `src` from `ss` laid at `ds`. */
  ghost predicate Copied(r: Value, dst: Value, ds: nat, src: Value, ss: nat, n: nat) {
    && (forall i: nat :: VBit(r, i) == if ds <= i < ds + n then VBit(src, i - ds + ss) else VBit(dst, i))
    && (forall i: nat :: XBit(r, i) == if ds <= i < ds + n then XBit(src, i - ds + ss) else XBit(dst, i))
  }

  /** The number of bits a copy moves once clipped to both values. */
  function Clip(dst: Value, ds: nat, src: Value, ss: nat, count: nat): nat {
    Min(Min(count, Monus(dst.width, ds)), Monus(src.width, ss))
  }

  function Monus(a: nat, b: nat): nat { if a > b then a - b else 0 }

  /** Up to 64 bits of both planes of `src` from `pos`. */
  function Extract(src: Value, pos: nat, n: nat): (r: (Word, Word)) {
    match src.storage
    case Inline(val, xz) =>
      if pos >= 64 then (0, 0) else (And64(Shr(val, pos), Mask(n)), And64(Shr(xz, pos), Mask(n)))
    case Wide(vals, xzs) => (ExtractPlane(vals, pos, n), ExtractPlane(xzs, pos, n))
  }

  lemma ExtractBits(src: Value, pos: nat, n: nat)
    requires n <= 64
    ensures forall k: nat :: Bit(Extract(src, pos, n).0, k) == (k < n && VBit(src, pos + k))
    ensures forall k: nat :: Bit(Extract(src, pos, n).1, k) == (k < n && XBit(src, pos + k))
  {
    hide Bit, WBit, And64, Shr, Mask, ExtractPlane;
    match src.storage {
      case Inline(val, xz) =>
        BitsOfZero();
        WordHighBits(val);
        WordHighBits(xz);
      case Wide(vals, xzs) =>
        ExtractPlaneBits(vals, pos, n);
        ExtractPlaneBits(xzs, pos, n);
    }
  }

  /** `cur` has the first `off` copied bits; `w` is a bit that differs if any does. */
  ghost predicate CopyState(cur: Value, dst: Value, ds: nat, src: Value, ss: nat, off: nat, changed: bool, w: nat) {
    && Copied(cur, dst, ds, src, ss, off)
    && (!changed ==> cur == dst)
    && (changed ==> w < ds + off && (VBit(cur, w) != VBit(dst, w) || XBit(cur, w) != XBit(dst, w)))
  }

  /** A chunk equal to what is already there changes nothing. */
  lemma ChunkKept(cur: Value, dst: Value, ds: nat, src: Value, ss: nat, off: nat, n: nat, changed: bool, w: nat)
    requires CopyState(cur, dst, ds, src, ss, off, changed, w) && n <= 64
    requires Extract(src, ss + off, n) == Extract(cur, ds + off, n)
    ensures CopyState(cur, dst, ds, src, ss, off + n, changed, w)
  {
    hide Bit, VBit, XBit, Extract;
    ExtractBits(src, ss + off, n);
    ExtractBits(cur, ds + off, n);
    var s := Extract(src, ss + off, n);
    forall i: nat | ds + off <= i < ds + off + n
      ensures VBit(cur, i) == VBit(src, i - ds + ss) && XBit(cur, i) == XBit(src, i - ds + ss)
    {
      var k: nat := i - ds - off;
      assert (ss + off) + k == i - ds + ss && (ds + off) + k == i;
      assert Bit(s.0, k) == VBit(src, (ss + off) + k) == VBit(cur, (ds + off) + k);
      assert Bit(s.1, k) == XBit(src, (ss + off) + k) == XBit(cur, (ds + off) + k);
    }
  }

  /** Two words that differ below bit `n` differ in some bit. */
  lemma DifferingBit(a: Word, b: Word, n: nat) returns (k: nat)
    requires a != b && forall i: nat :: i >= n ==> !Bit(a, i) && !Bit(b, i)
    ensures k < n && Bit(a, k) != Bit(b, k)
  {
    BoundFromBits(a, n);
    BoundFromBits(b, n);
    if forall i: nat :: i < n ==> Bit(a, i) == Bit(b, i) { SameBits(a, b, n); }
    k :| k < n && Bit(a, k) != Bit(b, k);
  }

  /** A chunk that differs, once spliced in, leaves a bit that differs for good. */
  lemma ChunkStored(cur: Value, next: Value, dst: Value, ds: nat, src: Value, ss: nat, off: nat, n: nat, changed: bool, w: nat)
    returns (w': nat)
    requires CopyState(cur, dst, ds, src, ss, off, changed, w) && n <= 64
    requires Extract(src, ss + off, n) != Extract(cur, ds + off, n)
    requires Copied(next, cur, ds + off, src, ss + off, n)
    ensures CopyState(next, dst, ds, src, ss, off + n, true, w')
  {
    hide Bit, VBit, XBit, Extract;
    ExtractBits(src, ss + off, n);
    ExtractBits(cur, ds + off, n);
    var s, d := Extract(src, ss + off, n), Extract(cur, ds + off, n);
    var k;
    if s.0 != d.0 { k := DifferingBit(s.0, d.0, n); } else { k := DifferingBit(s.1, d.1, n); }
    w' := ds + off + k;
    assert w' - (ds + off) + (ss + off) == ss + off + k;
  }

  /** A splice of extracted words, seen at the level of values. */
  lemma SplicedIsCopied(cur: Value, next: Value, src: Value, pos: nat, from: nat, n: nat)
    requires cur.storage.Wide? && next.storage.Wide? && n <= 64 && pos + n <= cur.width
    requires Spliced(cur.storage.vals, next.storage.vals, pos, Extract(src, from, n).0, n, cur.width)
    requires Spliced(cur.storage.xzs, next.storage.xzs, pos, Extract(src, from, n).1, n, cur.width)
    ensures Copied(next, cur, pos, src, from, n)
  {
    hide Bit, WBit, Extract;
    ExtractBits(src, from, n);
    forall i: nat
      ensures VBit(next, i) == if pos <= i < pos + n then VBit(src, i - pos + from) else VBit(cur, i)
      ensures XBit(next, i) == if pos <= i < pos + n then XBit(src, i - pos + from) else XBit(cur, i)
    {
      assert VBit(next, i) == WBit(next.storage.vals, i) && XBit(next, i) == WBit(next.storage.xzs, i);
      if pos <= i < pos + n { assert from + (i - pos) == i - pos + from; }
    }
  }

  /**
   Copy a bit range into a wide value 64 bits at a time, storing only chunks
   that differ; `changed` tells whether any bit did.
   */
  method CopyIntoWide(dst: Value, ds: nat, src: Value, ss: nat, count: nat) returns (r: Value, changed: bool)
    requires Valid(dst) && dst.width > 64 && ds + count <= dst.width
    ensures Valid(r) && r.width == dst.width && r.signed == dst.signed
    ensures Copied(r, dst, ds, src, ss, count) && changed == (r != dst)
  {
    hide Bit, WBit, Extract, VBit, XBit, Pow2, ToNat, Copied, ExtractPlane, Spliced, Masked;
    WideMasked(dst);
    var p := new WidePlanes.Of(dst.storage.vals, dst.storage.xzs, dst.width);
    changed := false;
    ghost var cur, w: nat := dst, 0;
    NothingCopied(dst, ds, src, ss);
    var off := 0;
    while off < count
      invariant off <= count && fresh(p) && p.Valid() && p.nbits == dst.width
      invariant cur == Value(Wide(p.val, p.xz), dst.width, dst.signed)
      invariant CopyState(cur, dst, ds, src, ss, off, changed, w)
    {
      var n := Min(count - off, 64);
      var s := Extract(src, ss + off, n);
      var d := (ExtractPlane(p.val, ds + off, n), ExtractPlane(p.xz, ds + off, n));
      ExtractWide(cur, ds + off, n);
      if s != d {
        p.Splice64(ds + off, s.0, s.1, n);
        ghost var next := Value(Wide(p.val, p.xz), dst.width, dst.signed);
        SplicedIsCopied(cur, next, src, ds + off, ss + off, n);
        w := ChunkStored(cur, next, dst, ds, src, ss, off, n, changed, w);
        cur, changed := next, true;
      } else {
        ChunkKept(cur, dst, ds, src, ss, off, n, changed, w);
      }
      off := off + n;
    }
    r := Value(Wide(p.val, p.xz), dst.width, dst.signed);
    WideValid(p.val, p.xz, dst.width, dst.signed);
  }

  lemma ExtractWide(v: Value, pos: nat, n: nat)
    requires v.storage.Wide?
    ensures Extract(v, pos, n) == (ExtractPlane(v.storage.vals, pos, n), ExtractPlane(v.storage.xzs, pos, n))
  {}

  lemma NothingCopied(dst: Value, ds: nat, src: Value, ss: nat)
    ensures Copied(dst, dst, ds, src, ss, 0)
  {}

  /** `copy_bits_from`: the clipped range and nothing else; `changed` iff some bit did. */
  method CopyBitsFrom(dst: Value, ds: nat, src: Value, ss: nat, count: nat) returns (r: Value, changed: bool)
    requires Valid(dst) && Valid(src)
    ensures Valid(r) && r.width == dst.width && r.signed == dst.signed
    ensures Copied(r, dst, ds, src, ss, Clip(dst, ds, src, ss, count)) && changed == (r != dst)
  {
    hide SpliceWord, Mask, Extract, Pow2, Copied;
    var n := Clip(dst, ds, src, ss, count);
    if n == 0 {
      NothingCopied(dst, ds, src, ss);
      return dst, false;
    }
    match dst.storage {
      case Wide(_, _) =>
        r, changed := CopyIntoWide(dst, ds, src, ss, n);
      case Inline(val, xz) =>
        var s := Extract(src, ss, n);
        var nv, nx := SpliceWord(val, s.0, Mask(n), ds), SpliceWord(xz, s.1, Mask(n), ds);
        r := dst.(storage := Inline(nv, nx));
        changed := nv != val || nx != xz;
        InlineCopied(dst, ds, src, ss, n, r);
    }
  }

  lemma InlineCopied(dst: Value, ds: nat, src: Value, ss: nat, n: nat, r: Value)
    requires Valid(dst) && dst.width <= 64 && n > 0 && ds + n <= dst.width
    requires r == dst.(storage := Inline(SpliceWord(dst.storage.val, Extract(src, ss, n).0, Mask(n), ds),
                                         SpliceWord(dst.storage.xz, Extract(src, ss, n).1, Mask(n), ds)))
    ensures Valid(r) && Copied(r, dst, ds, src, ss, n)
  {
    hide Bit, SpliceWord, Mask, Extract, Pow2;
    ExtractBits(src, ss, n);
    HighClear(dst);
    var s := Extract(src, ss, n);
    forall i: nat
      ensures VBit(r, i) == if ds <= i < ds + n then VBit(src, i - ds + ss) else VBit(dst, i)
      ensures XBit(r, i) == if ds <= i < ds + n then XBit(src, i - ds + ss) else XBit(dst, i)
    {
      if i >= ds {
        assert Bit(s.0, i - ds) == (i - ds < n && VBit(src, ss + (i - ds)));
        assert Bit(s.1, i - ds) == (i - ds < n && XBit(src, ss + (i - ds)));
        assert ss + (i - ds) == i - ds + ss;
      }
      assert Bit(dst.storage.val, i) == VBit(dst, i) && Bit(dst.storage.xz, i) == XBit(dst, i);
    }
    assert forall i: nat :: VBit(r, i) == Bit(r.storage.val, i) && XBit(r, i) == Bit(r.storage.xz, i);
    NarrowValid(r.storage.val, r.storage.xz, r.width, r.signed);
  }

  /* ---- uniform values ---- */

  /** `w` copies of one bit. */
  function Uniform(w: nat, bit: LogicBit): Value {
    var v, x := ValueBit(bit), UnknownBit(bit);
    if w <= 64 then Value(Inline(if v then Mask(w) else 0, if x then Mask(w) else 0), w, false)
    else Value(Wide(UniformPlane(w, v), UniformPlane(w, x)), w, false)
  }

  function UniformPlane(w: nat, on: bool): seq<Word> {
    MaskedWords(seq(NWords(w), i => if on then Mask(64) else 0), w)
  }

  lemma UniformIs(w: nat, bit: LogicBit)
    requires w <= MAX_WIDTH
    ensures Valid(Uniform(w, bit)) && Uniform(w, bit).width == w && !Uniform(w, bit).signed
    ensures forall i: nat :: VBit(Uniform(w, bit), i) == (i < w && ValueBit(bit))
    ensures forall i: nat :: XBit(Uniform(w, bit), i) == (i < w && UnknownBit(bit))
  {
    hide Bit, WBit, Mask, MaskedWords;
    BitsOfZero();
    if w <= 64 {
      var u := Uniform(w, bit);
      NarrowValid(u.storage.val, u.storage.xz, w, false);
    } else {
      UniformPlaneIs(w, ValueBit(bit));
      UniformPlaneIs(w, UnknownBit(bit));
      WideValid(UniformPlane(w, ValueBit(bit)), UniformPlane(w, UnknownBit(bit)), w, false);
    }
  }

  lemma UniformPlaneIs(w: nat, on: bool)
    requires w > 0
    ensures |UniformPlane(w, on)| == NWords(w) && Masked(UniformPlane(w, on), w)
    ensures forall i: nat :: WBit(UniformPlane(w, on), i) == (i < w && on)
  {
    hide Bit, Mask, MaskedWords;
    BitsOfZero();
    MaskedWordsBits(seq(NWords(w), i => if on then Mask(64) else 0), w);
  }

  function ZeroValue(w: nat): Value { Uniform(CapWidth(w), Zero) }

  /* ---- resize ---- */

  /** Bits below both widths kept, the rest sign-filled by a known 1 of a signed value. */
  ghost predicate Resized(r: Value, v: Value, w: nat) {
    var fill := v.signed && v.width > 0 && VBit(v, v.width - 1) && !XBit(v, v.width - 1);
    && Valid(r) && r.width == w
    && (forall i: nat :: VBit(r, i) == (i < w && if i < v.width then VBit(v, i) else fill))
    && (forall i: nat :: XBit(r, i) == (i < w && i < v.width && XBit(v, i)))
  }

  method Resize(v: Value, target: nat) returns (r: Value)
    requires Valid(v) && target <= MAX_WIDTH
    ensures Resized(r, v, target) && (target > 0 ==> r.signed == v.signed)
  {
    hide Bit, WBit, Mask, Pow2, Uniform;
    HighClear(v);
    if target == 0 {
      UniformIs(0, Zero);
      return ZeroValue(0);
    }
    if v.storage.Inline? && target <= 64 {
      r := ResizeInline(v, target);
      return;
    }
    if target == v.width { return v; }
    var fill := v.signed && v.width > 0 && VBit(v, v.width - 1) && !XBit(v, v.width - 1);
    UniformIs(target, if fill then One else Zero);
    var base := Uniform(target, if fill then One else Zero).(signed := v.signed);
    SignIsFlag(Uniform(target, if fill then One else Zero), v.signed);
    var changed;
    r, changed := CopyBitsFrom(base, 0, v, 0, Min(v.width, target));
  }

  /** The register-only head of `resize`. */
  method ResizeInline(v: Value, target: nat) returns (r: Value)
    requires Valid(v) && v.width <= 64 && 0 < target <= 64
    ensures Resized(r, v, target) && r.signed == v.signed
  {
    hide Bit, Mask, Pow2;
    HighClear(v);
    var val, xz := v.storage.val, v.storage.xz;
    if target < v.width {
      r := v.(storage := Inline(And64(val, Mask(target)), And64(xz, Mask(target))), width := target);
    } else {
      var val' := val;
      if v.signed && v.width > 0 && !Bit(xz, v.width - 1) && Bit(val, v.width - 1) {
        val' := Or64(val, And64(Mask(target), Not64(Mask(v.width))));
      }
      r := v.(storage := Inline(val', xz), width := target);
    }
    forall i: nat ensures VBit(r, i) == Bit(r.storage.val, i) && XBit(r, i) == Bit(r.storage.xz, i) {}
    forall i: nat ensures VBit(v, i) == Bit(val, i) && XBit(v, i) == Bit(xz, i) {}
    NarrowValid(r.storage.val, r.storage.xz, target, r.signed);
  }

  /* ---- shifts ---- */

  const U32: nat := 0x1_0000_0000

  /** `amount.to_u64() as u32` */
  function ShiftAmount(a: Value): nat { RawWord(a, 0) % U32 }

  lemma AllUnknownBits(w: nat)
    requires w <= MAX_WIDTH
    ensures Valid(AllUnknown(w)) && AllUnknown(w).width == w && !AllUnknown(w).signed
    ensures forall i: nat :: !VBit(AllUnknown(w), i) && XBit(AllUnknown(w), i) == (i < w)
  {
    hide Bit, WBit, Mask, MaskedWords;
    BitsOfZero();
    var u := AllUnknown(w);
    if w <= 64 {
      NarrowValid(u.storage.val, u.storage.xz, w, false);
    } else {
      ZeroPlane(NWords(w));
      MaskedWordsBits(OnesWords(NWords(w)), w);
      forall i: nat | i < w ensures WBit(OnesWords(NWords(w)), i) { OnesWord(NWords(w), i); }
      WideValid(u.storage.vals, u.storage.xzs, w, false);
    }
  }

  /** `v` moved up by `n`, zeros below. */
  ghost predicate MovedUp(r: Value, v: Value, n: nat) {
    && Valid(r) && r.width == v.width
    && (forall i: nat :: VBit(r, i) == (i < v.width && i >= n && VBit(v, i - n)))
    && (forall i: nat :: XBit(r, i) == (i < v.width && i >= n && XBit(v, i - n)))
  }

  /** `v` moved down by `n`, copies of `fill` above. */
  ghost predicate MovedDown(r: Value, v: Value, n: nat, fill: LogicBit) {
    && Valid(r) && r.width == v.width
    && (forall i: nat :: VBit(r, i) == (i < v.width && if i + n < v.width then VBit(v, i + n) else ValueBit(fill)))
    && (forall i: nat :: XBit(r, i) == (i < v.width && if i + n < v.width then XBit(v, i + n) else UnknownBit(fill)))
  }

  lemma InlineBits(v: Value)
    requires v.storage.Inline?
    ensures forall i: nat :: VBit(v, i) == Bit(v.storage.val, i)
    ensures forall i: nat :: XBit(v, i) == Bit(v.storage.xz, i)
  {}

  function InlineUp(v: Value, n: nat): Value
    requires v.storage.Inline? && n < v.width <= 64
  {
    v.(storage := Inline(And64(Shl64(v.storage.val, n), Mask(v.width)), And64(Shl64(v.storage.xz, n), Mask(v.width))))
  }

  lemma InlineMovesUp(v: Value, n: nat)
    requires Valid(v) && v.storage.Inline? && n < v.width
    ensures MovedUp(InlineUp(v, n), v, n)
  {
    hide Bit, VBit, XBit, Mask, And64, Shl64, Pow2;
    var r := InlineUp(v, n);
    InlineBits(v);
    InlineBits(r);
    NarrowValid(r.storage.val, r.storage.xz, v.width, v.signed);
  }

  function InlineDown(v: Value, n: nat): Value
    requires v.storage.Inline?
  {
    v.(storage := Inline(Shr(v.storage.val, n), Shr(v.storage.xz, n)))
  }

  lemma InlineMovesDown(v: Value, n: nat)
    requires Valid(v) && v.storage.Inline? && n < v.width
    ensures MovedDown(InlineDown(v, n), v, n, Zero)
  {
    hide Bit, VBit, XBit, Shr, Pow2;
    var r := InlineDown(v, n);
    HighClear(v);
    InlineBits(v);
    InlineBits(r);
    NarrowValid(r.storage.val, r.storage.xz, v.width, v.signed);
  }

  method ShiftLeft(v: Value, amount: Value) returns (r: Value)
    requires Valid(v)
    ensures if HasXz(amount) then r == AllUnknown(v.width) else MovedUp(r, v, ShiftAmount(amount))
    ensures r.signed == (v.signed && !HasXz(amount) && (v.width > 64 || ShiftAmount(amount) < v.width))
  {
    hide Bit, WBit, VBit, XBit, Mask, Pow2, Uniform, RawWord, HasXz;
    UnsignedX(v.width);
    if HasXz(amount) { return AllUnknown(v.width); }
    var n := ShiftAmount(amount);
    UniformIs(v.width, Zero);
    HighClear(v);
    match v.storage {
      case Inline(val, xz) =>
        if n >= v.width { return ZeroValue(v.width); }
        r := InlineUp(v, n);
        InlineMovesUp(v, n);
      case Wide(_, _) =>
        var changed;
        r, changed := CopyBitsFrom(ZeroValue(v.width), n, v, 0, Monus(v.width, n));
        SignIsFlag(r, v.signed);
        r := r.(signed := v.signed);
    }
  }

  lemma SignIsFlag(v: Value, s: bool)
    ensures Valid(v.(signed := s)) == Valid(v)
    ensures forall i: nat :: VBit(v.(signed := s), i) == VBit(v, i)
    ensures forall i: nat :: XBit(v.(signed := s), i) == XBit(v, i)
  {}

  method ShiftRight(v: Value, amount: Value) returns (r: Value)
    requires Valid(v)
    ensures if HasXz(amount) then r == AllUnknown(v.width) else MovedDown(r, v, ShiftAmount(amount), Zero)
    ensures r.signed == (v.signed && !HasXz(amount) && (v.width > 64 || ShiftAmount(amount) < v.width))
  {
    hide Bit, WBit, VBit, XBit, Mask, Pow2, Uniform, RawWord, HasXz;
    UnsignedX(v.width);
    if HasXz(amount) { return AllUnknown(v.width); }
    var n := ShiftAmount(amount);
    UniformIs(v.width, Zero);
    HighClear(v);
    match v.storage {
      case Inline(val, xz) =>
        if n >= v.width { return ZeroValue(v.width); }
        r := InlineDown(v, n);
        InlineMovesDown(v, n);
      case Wide(_, _) =>
        var changed;
        r, changed := CopyBitsFrom(ZeroValue(v.width), 0, v, n, Monus(v.width, n));
        SignIsFlag(r, v.signed);
        r := r.(signed := v.signed);
    }
  }

  /** `>>>`: a signed value fills with its four-state sign bit, an unsigned one with zeros. */
  method ArithShiftRight(v: Value, amount: Value) returns (r: Value)
    requires Valid(v)
    ensures if HasXz(amount) then r == AllUnknown(v.width).(signed := v.signed)
            else MovedDown(r, v, ShiftAmount(amount), if v.signed && v.width > 0 then GetBit(v, v.width - 1) else Zero)
    ensures v.signed ==> r.signed
  {
    hide Bit, WBit, VBit, XBit, Mask, Pow2, Uniform, RawWord, HasXz;
    if !v.signed {
      UnsignedX(v.width);
      r := ShiftRight(v, amount);
      return;
    }
    if HasXz(amount) { return AllUnknown(v.width).(signed := true); }
    var n := ShiftAmount(amount);
    var sign := if v.width > 0 then GetBit(v, v.width - 1) else Zero;
    match v.storage {
      case Inline(val, xz) => r := ArithInline(v, n, sign);
      case Wide(_, _) => r := ArithWide(v, n, sign);
    }
  }

  lemma UnsignedX(w: nat)
    ensures !AllUnknown(w).signed
  {}

  function GetBit(v: Value, i: nat): LogicBit {
    if i >= v.width then Zero else ToLogic(VBit(v, i), XBit(v, i))
  }

  method ArithInline(v: Value, n: nat, sign: LogicBit) returns (r: Value)
    requires Valid(v) && v.width <= 64 && v.signed
    ensures MovedDown(r, v, n, sign) && r.signed
  {
    hide Bit, VBit, XBit, FilledShift, Pow2, Uniform;
    var w, val, xz := v.width, v.storage.val, v.storage.xz;
    HighClear(v);
    if n >= w {
      UniformIs(w, sign);
      SignIsFlag(Uniform(w, sign), true);
      return Uniform(w, sign).(signed := true);
    }
    r := v.(storage := Inline(FilledShift(val, n, w, ValueBit(sign)), FilledShift(xz, n, w, UnknownBit(sign))));
    InlineBits(v);
    InlineBits(r);
    FilledShiftBits(val, n, w, ValueBit(sign));
    FilledShiftBits(xz, n, w, UnknownBit(sign));
    NarrowValid(r.storage.val, r.storage.xz, w, true);
  }

  /** One plane word shifted right, its vacated bits below `w` filled with the sign. */
  function FilledShift(word: Word, n: nat, w: nat, fill: bool): Word
    requires n < w <= 64
  {
    if fill then Or64(Shr(word, n), And64(Mask(w), Not64(Mask(w - n)))) else Shr(word, n)
  }

  lemma FilledShiftBits(word: Word, n: nat, w: nat, fill: bool)
    requires n < w <= 64 && forall i: nat :: i >= w ==> !Bit(word, i)
    ensures forall i: nat :: Bit(FilledShift(word, n, w, fill), i) == (i < w && if i + n < w then Bit(word, i + n) else fill)
  {
    hide Bit, Shr, Mask, And64, Or64, Not64;
  }

  /** The per-bit loop of the wide arm. */
  method ArithWide(v: Value, n: nat, sign: LogicBit) returns (r: Value)
    requires Valid(v) && v.width > 64 && v.signed
    ensures MovedDown(r, v, n, sign) && r.signed
  {
    hide Bit, WBit, VBit, XBit, Pow2, Masked, ToNat, UniformPlane, Zeros;
    var p := new WidePlanes.Zeroed(v.width);
    for i := 0 to v.width
      invariant fresh(p) && p.Valid() && p.nbits == v.width
      invariant forall k: nat :: WBit(p.val, k) == (k < i && if k + n < v.width then VBit(v, k + n) else ValueBit(sign))
      invariant forall k: nat :: WBit(p.xz, k) == (k < i && if k + n < v.width then XBit(v, k + n) else UnknownBit(sign))
    {
      p.Set(i, if i + n < v.width then GetBit(v, i + n) else sign);
    }
    r := Value(Wide(p.val, p.xz), v.width, true);
    WideValid(p.val, p.xz, v.width, true);
    WideBits(r);
  }

  lemma WideBits(v: Value)
    requires v.storage.Wide?
    ensures forall i: nat :: VBit(v, i) == WBit(v.storage.vals, i)
    ensures forall i: nat :: XBit(v, i) == WBit(v.storage.xzs, i)
  {}
}
