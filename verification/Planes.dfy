/** Two-plane word storage of four-state vectors wider than 64 bits. */
module Planes {
  import opened WordBits
  import opened WordVec

  /** Value plane, unknown plane: `0` = (0,0), `1` = (1,0), `x` = (0,1), `z` = (1,1). */
  datatype LogicBit = Zero | One | X | Z

  function ToLogic(v: bool, x: bool): LogicBit {
    if !x then (if v then One else Zero) else (if v then Z else X)
  }

  predicate ValueBit(b: LogicBit) { b == One || b == Z }
  predicate UnknownBit(b: LogicBit) { b == X || b == Z }

  function Min(a: nat, b: nat): nat { if a < b then a else b }
  function Max(a: nat, b: nat): nat { if a > b then a else b }

  function NWords(nbits: nat): (n: nat)
    ensures n >= 1 && 64 * (n - 1) < Max(nbits, 1) <= 64 * n
  {
    (Max(nbits, 1) + 63) / 64
  }

  /** Bit `i` of a plane; positions past its words read 0. */
  predicate WBit(ws: seq<Word>, i: nat) {
    i < 64 * |ws| && Bit(ws[i / 64], i % 64)
  }

  /** No bit at or above `n` is set. */
  ghost predicate Masked(ws: seq<Word>, n: nat) {
    forall i: nat :: i >= n ==> !WBit(ws, i)
  }

  lemma ZeroPlane(n: nat)
    ensures forall i: nat :: !WBit(Zeros(n), i)
  {
    hide Bit;
    BitsOfZero();
  }

  lemma PlaneNumber(ws: seq<Word>)
    ensures forall i: nat :: Bit(ToNat(ws), i) == WBit(ws, i)
  {
    forall i: nat ensures Bit(ToNat(ws), i) == WBit(ws, i) { ValBit(ws, |ws|, i); }
  }

  /** A plane is masked exactly when the number it spells fits. */
  lemma MaskedIff(ws: seq<Word>, n: nat)
    ensures Masked(ws, n) <==> ToNat(ws) < Pow2(n)
  {
    PlaneNumber(ws);
    if ToNat(ws) < Pow2(n) { HighBitsClear(ToNat(ws), n); }
    if Masked(ws, n) {
      forall i: nat | i >= n ensures !Bit(ToNat(ws), i) { assert !WBit(ws, i); }
      BoundFromBits(ToNat(ws), n);
    }
  }

  function WordAt(ws: seq<Word>, i: nat): Word {
    if i < |ws| then ws[i] else 0
  }

  /** The mask of the top word of a `width`-bit plane. */
  function TopMask(width: nat): Word {
    if width % 64 == 0 then Mask(64) else Mask(width % 64)
  }

  function FitWords(ws: seq<Word>, n: nat): (r: seq<Word>)
    ensures |r| == n && forall i :: 0 <= i < n ==> r[i] == WordAt(ws, i)
  {
    seq(n, i requires 0 <= i < n => WordAt(ws, i))
  }

  /** Two-state words cut or zero-padded to `width` bits. */
  function MaskedWords(ws: seq<Word>, width: nat): (r: seq<Word>)
    ensures |r| == NWords(width)
  {
    var n := NWords(width);
    var fit := FitWords(ws, n);
    fit[n - 1 := And64(fit[n - 1], TopMask(width))]
  }

  lemma MaskedWordsBits(ws: seq<Word>, width: nat)
    requires width > 0
    ensures forall i: nat :: WBit(MaskedWords(ws, width), i) == (i < width && WBit(ws, i))
  {
    hide Mask, And64, Bit, NWords;
    var n := NWords(width);
    BitsOfZero();
    TopMaskIs(width);
    forall i: nat ensures WBit(MaskedWords(ws, width), i) == (i < width && WBit(ws, i)) {
      WordIndex(i, n);
    }
  }

  /** The top mask keeps the bits of the last word that are below `width`. */
  lemma TopMaskIs(width: nat)
    requires width > 0
    ensures TopMask(width) == Mask(width - 64 * (NWords(width) - 1))
  {
    hide Mask, NWords;
    LastWordWidth(width, NWords(width));
  }

  lemma LastWordWidth(width: nat, n: nat)
    requires n > 0 && 64 * (n - 1) < width <= 64 * n
    ensures width - 64 * (n - 1) == if width % 64 == 0 then 64 else width % 64
  {}

  lemma WordIndex(i: nat, n: nat)
    requires n > 0
    ensures if i < 64 * (n - 1) then i / 64 < n - 1 else if i < 64 * n then i / 64 == n - 1 && i % 64 == i - 64 * (n - 1) else i / 64 >= n
  {}

  lemma {:induction false} MaskedWordsValue(ws: seq<Word>, width: nat)
    requires width > 0
    ensures ToNat(MaskedWords(ws, width)) == ToNat(ws) % Pow2(width)
  {
    hide MaskedWords, ToNat, WBit, Low;
    var r := MaskedWords(ws, width);
    MaskedWordsBits(ws, width);
    MaskedIff(r, width);
    PlaneNumber(r);
    PlaneNumber(ws);
    Split(ToNat(ws), width);
    SameBits(ToNat(r), Low(ToNat(ws), width), width);
  }

  /** `(w & !(mask << off)) | (v << off)` */
  function SpliceWord(w: Word, v: Word, mask: Word, off: nat): (r: Word)
    requires off < 64
    ensures forall b: nat | b < off :: Bit(r, b) == Bit(w, b)
    ensures forall b: nat | b >= off :: Bit(r, b) == (b < 64 && ((!Bit(mask, b - off) && Bit(w, b)) || Bit(v, b - off)))
  {
    Or64(And64(w, Not64(Shl64(mask, off))), Shl64(v, off))
  }

  /** `(w & !hi_mask) | (v >> sh)` */
  function SpliceHigh(w: Word, v: Word, hiN: nat, sh: nat): (r: Word)
    ensures forall b: nat :: Bit(r, b) == ((b < 64 && b >= hiN && Bit(w, b)) || Bit(v, b + sh))
  {
    Or64(And64(w, Not64(Mask(hiN))), Shr(v, sh))
  }

  lemma WordsTouched(pos: nat, n: nat, len: nat)
    requires 1 <= n <= 64 && pos + n <= 64 * len
    ensures pos / 64 < len && (pos % 64 + n > 64 ==> pos / 64 + 1 < len)
  {}

  function SetWord(ws: seq<Word>, i: nat, w: Word): (r: seq<Word>)
    requires i < |ws|
    ensures r == ws[i := w]
  {
    ws[i := w]
  }

  /** The `n` bits of `v` written `off` bits into word `wi`, the excess into the next. */
  function SpliceAt(ws: seq<Word>, wi: nat, off: nat, v: Word, n: nat): (r: seq<Word>)
    requires n <= 64 && off < 64 && wi < |ws| && (off + n > 64 ==> wi + 1 < |ws|)
    ensures |r| == |ws|
  {
    var low := SetWord(ws, wi, SpliceWord(ws[wi], v, Mask(n), off));
    if off + n > 64 then SetWord(low, wi + 1, SpliceHigh(ws[wi + 1], v, off + n - 64, 64 - off)) else low
  }

  /** One plane of `splice64`: the `n` bits of `v` written at `pos`. */
  function SplicePlane(ws: seq<Word>, pos: nat, v: Word, n: nat): (r: seq<Word>)
    requires 1 <= n <= 64 && pos + n <= 64 * |ws|
    ensures |r| == |ws|
  {
    WordsTouched(pos, n, |ws|);
    SpliceAt(ws, pos / 64, pos % 64, v, n)
  }

  /** `(lo >> off) | (hi << (64 - off))`: the word starting `off` bits into `lo`. */
  function Straddle(lo: Word, hi: Word, off: nat): (r: Word)
    requires off < 64
    ensures forall k: nat :: Bit(r, k) == (k < 64 && if off + k < 64 then Bit(lo, off + k) else Bit(hi, off + k - 64))
  {
    WordHighBits(lo);
    BitsOfZero();
    Or64(Shr(lo, off), if off > 0 then Shl64(hi, 64 - off) else 0)
  }

  /** The word of `ws` starting at bit `pos`, wherever it straddles. */
  function WordFrom(ws: seq<Word>, pos: nat): Word {
    Straddle(WordAt(ws, pos / 64), WordAt(ws, pos / 64 + 1), pos % 64)
  }

  /** One plane of `extract64`: up to 64 bits starting at `pos`. */
  function ExtractPlane(ws: seq<Word>, pos: nat, n: nat): Word {
    And64(WordFrom(ws, pos), Mask(n))
  }

  lemma WordFromBits(ws: seq<Word>, pos: nat)
    ensures forall k: nat :: Bit(WordFrom(ws, pos), k) == (k < 64 && WBit(ws, pos + k))
  {
    hide Straddle, Bit;
    BitsOfZero();
    forall k: nat ensures Bit(WordFrom(ws, pos), k) == (k < 64 && WBit(ws, pos + k)) {
      var wi, off := pos / 64, pos % 64;
      if off + k < 64 {
        assert (pos + k) / 64 == wi && (pos + k) % 64 == off + k;
      } else if k < 64 {
        assert (pos + k) / 64 == wi + 1 && (pos + k) % 64 == off + k - 64;
      }
    }
  }

  lemma {:induction false} ExtractPlaneBits(ws: seq<Word>, pos: nat, n: nat)
    ensures forall k: nat :: Bit(ExtractPlane(ws, pos, n), k) == (k < n && k < 64 && WBit(ws, pos + k))
  {
    hide WordFrom, Bit, Mask;
    WordFromBits(ws, pos);
  }

  lemma SplicePlaneBits(ws: seq<Word>, pos: nat, v: Word, n: nat)
    requires 1 <= n <= 64 && pos + n <= 64 * |ws|
    requires forall k: nat :: k >= n ==> !Bit(v, k)
    ensures forall i: nat :: WBit(SplicePlane(ws, pos, v, n), i)
                          == if pos <= i < pos + n then Bit(v, i - pos) else WBit(ws, i)
  {
    hide SpliceWord, SpliceHigh, Bit, Mask;
    var wi, off := pos / 64, pos % 64;
    var r := SplicePlane(ws, pos, v, n);
    forall i: nat ensures WBit(r, i) == if pos <= i < pos + n then Bit(v, i - pos) else WBit(ws, i) {
      if i < 64 * |ws| {
        var b := i % 64;
        if i / 64 == wi {
          assert i - pos == b - off;
        } else if off + n > 64 && i / 64 == wi + 1 {
          assert i - pos == b + (64 - off);
        }
      }
    }
  }

  /** One plane of `set`: `(w & !(1 << b)) | (v << b)` in the word holding bit `i`. */
  function SetPlane(ws: seq<Word>, i: nat, on: bool): (r: seq<Word>)
    requires i < 64 * |ws|
    ensures |r| == |ws|
  {
    var k, b := i / 64, i % 64;
    ws[k := Or64(And64(ws[k], Not64(Shl64(1, b))), Shl64(if on then 1 else 0, b))]
  }

  lemma SetPlaneBits(ws: seq<Word>, i: nat, on: bool)
    requires i < 64 * |ws|
    ensures forall j: nat :: WBit(SetPlane(ws, i, on), j) == if j == i then on else WBit(ws, j)
  {
    hide Bit, Or64, And64, Not64, Shl64;
    BitsOfZero();
    ShiftedOne(i % 64);
    forall j: nat ensures WBit(SetPlane(ws, i, on), j) == if j == i then on else WBit(ws, j) {
      assert j / 64 == i / 64 ==> (j == i <==> j % 64 == i % 64);
    }
  }

  /** `after` is `before` with the low `n` bits of `v` at `pos`, clipped to `nbits`. */
  ghost predicate Spliced(before: seq<Word>, after: seq<Word>, pos: nat, v: Word, n: nat, nbits: nat) {
    forall i: nat :: WBit(after, i) == if pos <= i < pos + n && i < nbits then Bit(v, i - pos) else WBit(before, i)
  }

  class WidePlanes {
    var val: seq<Word>
    var xz: seq<Word>
    const nbits: nat

    ghost predicate Valid()
      reads this
    {
      |val| == |xz| == NWords(nbits) && Masked(val, nbits) && Masked(xz, nbits)
    }

    constructor Zeroed(nbits: nat)
      ensures Valid() && this.nbits == nbits
      ensures forall i: nat :: !WBit(val, i) && !WBit(xz, i)
    {
      this.nbits := nbits;
      val, xz := Zeros(NWords(nbits)), Zeros(NWords(nbits));
      new;
      BitsOfZero();
    }

    constructor Of(val: seq<Word>, xz: seq<Word>, nbits: nat)
      requires |val| == |xz| == NWords(nbits) && Masked(val, nbits) && Masked(xz, nbits)
      ensures Valid() && this.nbits == nbits && this.val == val && this.xz == xz
    {
      this.val, this.xz, this.nbits := val, xz, nbits;
    }

    /** Set one bit; positions past the width are ignored. */
    method Set(i: nat, bit: LogicBit)
      requires Valid()
      modifies this
      ensures Valid()
      ensures forall k: nat :: WBit(val, k) == if k == i && i < nbits then ValueBit(bit) else old(WBit(val, k))
      ensures forall k: nat :: WBit(xz, k) == if k == i && i < nbits then UnknownBit(bit) else old(WBit(xz, k))
    {
      hide SetPlane, WBit, Bit;
      if i >= nbits { return; }
      SetPlaneBits(val, i, ValueBit(bit));
      SetPlaneBits(xz, i, UnknownBit(bit));
      val := SetPlane(val, i, ValueBit(bit));
      xz := SetPlane(xz, i, UnknownBit(bit));
    }

    /** Splice `n` (at most 64) bits of both planes in at `pos`; bits past the width are dropped. */
    method Splice64(pos: nat, v: Word, x: Word, n: nat)
      requires Valid()
      modifies this
      ensures Valid()
      ensures Spliced(old(val), val, pos, v, Min(n, 64), nbits) && Spliced(old(xz), xz, pos, x, Min(n, 64), nbits)
    {
      hide SplicePlane, Mask, WBit, Bit;
      if n == 0 || pos >= nbits { return; }
      var m := Min(Min(n, 64), nbits - pos);
      var v', x' := And64(v, Mask(m)), And64(x, Mask(m));
      SplicePlaneBits(val, pos, v', m);
      SplicePlaneBits(xz, pos, x', m);
      val := SplicePlane(val, pos, v', m);
      xz := SplicePlane(xz, pos, x', m);
    }
  }
}
