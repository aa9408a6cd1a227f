/**
 Four-state values of any width and their arithmetic in three storage regimes:
 one `u64` up to 64 bits, `u128` up to 128, word vectors above.
 */
module Values {
  import opened WordBits
  import opened WordVec
  import opened Planes

  const MAX_WIDTH: nat := 0x10_0000

  datatype Storage =
    | Inline(val: Word, xz: Word)
    | Wide(vals: seq<Word>, xzs: seq<Word>)

  datatype Value = Value(storage: Storage, width: nat, signed: bool)

  /* ---- abstraction ---- */

  /** The number the value plane spells. */
  function ValPlane(v: Value): nat {
    match v.storage
    case Inline(val, _) => val
    case Wide(val, _) => ToNat(val)
  }

  function XzPlane(v: Value): nat {
    match v.storage
    case Inline(_, xz) => xz
    case Wide(_, xz) => ToNat(xz)
  }

  ghost predicate Valid(v: Value) {
    && v.width <= MAX_WIDTH
    && ValPlane(v) < Pow2(v.width) && XzPlane(v) < Pow2(v.width)
    && match v.storage
       case Inline(_, _) => v.width <= 64
       case Wide(val, xz) => v.width > 64 && |val| == |xz| == NWords(v.width)
  }

  ghost predicate Known(v: Value) {
    Valid(v) && XzPlane(v) == 0
  }

  /** The integer a known value denotes, in two's complement when `s`. */
  ghost function IntOf(v: Value, s: bool): int {
    Signed(ValPlane(v), v.width, s)
  }

  ghost function Signed(n: nat, width: nat, s: bool): int {
    if s && width > 0 && Bit(n, width - 1) then n - Pow2(width) else n
  }

  /** `v` is `x` reduced to `w` bits, x/z-free. */
  ghost predicate Holds(v: Value, x: int, w: nat, s: bool) {
    Known(v) && v.width == w && v.signed == s && ValPlane(v) == x % Pow2(w)
  }

  ghost predicate AllX(v: Value, w: nat) {
    Valid(v) && v.width == w && !v.signed && ValPlane(v) == 0 && XzPlane(v) == Pow2(w) - 1
  }

  /* ---- constructors ---- */

  function CapWidth(width: nat): nat { Min(width, MAX_WIDTH) }

  lemma MaskIsLow(n: nat, w: nat)
    requires w <= 64
    ensures And(n, Mask(w)) == Low(n, w) == n % Pow2(w)
  {
    hide And, Low, Mask;
    Split(n, w);
    var m := And(n, Mask(w));
    forall i: nat | i >= w ensures !Bit(m, i) {}
    BoundFromBits(m, w);
    SameBits(m, Low(n, w), w);
  }

  function FromU64(n: Word, width: nat): (v: Value)
    requires width <= 64
  {
    Value(Inline(And64(n, Mask(width)), 0), width, false)
  }

  lemma FromU64Holds(n: Word, width: nat)
    requires width <= 64
    ensures Holds(FromU64(n, width), n, width, false)
  {
    MaskIsLow(n, width);
  }

  function FromWords(ws: seq<Word>, width: nat): Value {
    if width <= 64 then FromU64(WordAt(ws, 0), width)
    else Value(Wide(MaskedWords(ws, width), Zeros(NWords(width))), width, false)
  }

  lemma FromWordsHolds(ws: seq<Word>, width: nat)
    requires 64 < width <= MAX_WIDTH
    ensures Holds(FromWords(ws, width), ToNat(ws), width, false)
  {
    MaskedWordsValue(ws, width);
    ValZeros(Zeros(NWords(width)), NWords(width));
  }

  function OnesWords(n: nat): seq<Word> { seq(n, i => Mask(64)) }

  lemma OnesWord(n: nat, i: nat)
    requires i < 64 * n
    ensures WBit(OnesWords(n), i)
  {
    hide Bit;
  }

  /** An all-x value, its width capped. */
  function AllUnknown(width: nat): (v: Value) {
    var w := CapWidth(width);
    if w <= 64 then Value(Inline(0, Mask(w)), w, false)
    else Value(Wide(Zeros(NWords(w)), MaskedWords(OnesWords(NWords(w)), w)), w, false)
  }

  /** Some bit is x or z. */
  function HasXz(v: Value): bool {
    match v.storage
    case Inline(_, xz) => xz != 0
    case Wide(_, xzs) => exists i :: 0 <= i < |xzs| && xzs[i] != 0
  }

  lemma HasXzIff(v: Value)
    ensures HasXz(v) <==> XzPlane(v) != 0
  {
    match v.storage {
      case Inline(_, _) =>
      case Wide(_, xzs) =>
        if !HasXz(v) { ValZeros(xzs, |xzs|); }
        forall i | 0 <= i < |xzs| && xzs[i] != 0 ensures XzPlane(v) != 0 { ValAtLeast(xzs, |xzs|, i); }
    }
  }

  /* ---- operands ---- */

  function RawWord(v: Value, i: nat): Word {
    match v.storage
    case Inline(val, xz) => if i == 0 then And64(val, Not64(xz)) else 0
    case Wide(vals, xzs) => And64(WordAt(vals, i), Not64(WordAt(xzs, i)))
  }

  /** Word `i` kept below bit `sw` of the vector and filled with `neg` above it. */
  function SignWord(raw: Word, i: nat, sw: nat, neg: bool): (r: Word)
    ensures forall b: nat | b < 64 :: Bit(r, b) == if 64 * i + b < sw then Bit(raw, b) else neg
  {
    if 64 * i + 64 <= sw then raw
    else
      var keep := if 64 * i >= sw then 0 else Mask(sw - 64 * i);
      BitsOfZero();
      var o := And64(raw, keep);
      if neg then Or64(o, Not64(keep)) else o
  }

  function RawBit(v: Value, i: nat): bool {
    Bit(RawWord(v, i / 64), i % 64)
  }

  /** Two-state words at `w` bits, sign-extended from the value's own width when `sext`. */
  function ArithWords(v: Value, w: nat, sext: bool): (out: seq<Word>)
    ensures |out| == NWords(w)
  {
    var sw := Min(v.width, w);
    var neg := sext && sw > 0 && RawBit(v, sw - 1);
    seq(NWords(w), i requires 0 <= i < NWords(w) => SignWord(RawWord(v, i), i, sw, neg))
  }

  lemma KnownRaw(v: Value, i: nat)
    requires Known(v)
    ensures RawBit(v, i) == Bit(ValPlane(v), i)
  {
    hide And64, Not64, Bit;
    match v.storage {
      case Inline(val, xz) =>
        BitsOfZero();
        WordHighBits(val);
      case Wide(vals, xzs) =>
        PlaneNumber(vals);
        PlaneNumber(xzs);
        BitsOfZero();
        assert WBit(xzs, i) == Bit(ToNat(xzs), i);
    }
  }

  /** Bit `i` of `v` extended to the words of a `w`-bit result. */
  ghost predicate ExtendedBit(v: Value, w: nat, sext: bool, i: nat) {
    i < 64 * NWords(w) && if i < v.width then Bit(ValPlane(v), i) else IntOf(v, sext) < 0
  }

  lemma ArithWordsBits(v: Value, w: nat, sext: bool)
    requires Known(v) && v.width <= w
    ensures forall i: nat :: WBit(ArithWords(v, w, sext), i) == ExtendedBit(v, w, sext, i)
  {
    hide SignWord, RawWord, Bit;
    var out := ArithWords(v, w, sext);
    forall i: nat
      ensures WBit(out, i) == ExtendedBit(v, w, sext, i)
    {
      KnownRaw(v, i);
      if v.width > 0 { KnownRaw(v, v.width - 1); }
      if i < 64 * NWords(w) { assert 64 * (i / 64) + i % 64 == i; }
    }
  }

  /** `n` below bit `k`, ones from `k` to `m`. */
  ghost function Filled(n: nat, k: nat, m: nat): nat
    requires k <= m
  {
    n + Ones(m - k) * Pow2(k)
  }

  lemma SignFill(n: nat, k: nat, m: nat)
    requires n < Pow2(k) && k <= m
    ensures Filled(n, k, m) == n + Pow2(m) - Pow2(k) < Pow2(m)
    ensures forall i: nat :: Bit(Filled(n, k, m), i) == if i < k then Bit(n, i) else i < m
  {
    hide Bit, Ones, Pow2;
    OnesScaled(m - k, k);
    BitsOfSumAt(Filled(n, k, m), n, Ones(m - k), k);
  }

  lemma OnesScaled(j: nat, k: nat)
    ensures Ones(j) * Pow2(k) == Pow2(j + k) - Pow2(k)
  {
    hide Ones, Pow2, Bit;
    Pow2Add(j, k);
    PredTimes(Pow2(j), Pow2(k));
  }

  lemma PredTimes(x: nat, y: nat)
    ensures (x - 1) * y == x * y - y
  {}

  lemma {:induction false} ArithWordsValue(v: Value, w: nat, sext: bool)
    requires Known(v) && v.width <= w
    ensures ToNat(ArithWords(v, w, sext))
         == IntOf(v, sext) + if IntOf(v, sext) < 0 then Pow2(64 * NWords(w)) else 0
  {
    hide ArithWords, ToNat, Bit, WBit;
    var out, n, m := ArithWords(v, w, sext), ValPlane(v), 64 * NWords(w);
    ArithWordsBits(v, w, sext);
    PlaneNumber(out);
    MaskedIff(out, m);
    Pow2Mono(v.width, m);
    if IntOf(v, sext) < 0 {
      SignFill(n, v.width, m);
      SameBits(ToNat(out), Filled(n, v.width, m), m);
    } else {
      HighBitsClear(n, v.width);
      SameBits(ToNat(out), n, m);
    }
  }
}
