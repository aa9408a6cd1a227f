module TwoState {
  // The two-state engine: value bits only, the top word masked to the width.

  import opened WordBits
  import opened WordVec
  import opened Planes
  import opened Congruence

  datatype B2 = Inline(v: Word) | Wide(ws: seq<Word>)

  datatype Bits2 = Bits2(storage: B2, width: nat)

  /** `to_words`; the number of words is `nwords`. */
  function Words(b: Bits2): (ws: seq<Word>)
  {
    match b.storage
    case Inline(v) => [v]
    case Wide(ws) => ws
  }

  /** Word `i`, 0 out of range. */
  function WordOf(b: Bits2, i: nat): Word { WordAt(Words(b), i) }

  ghost function Nat(b: Bits2): nat { ToNat(Words(b)) }

  ghost predicate Valid(b: Bits2) {
    && b.width > 0
    && b.storage.Inline? == (b.width <= 64)
    && |Words(b)| == NWords(b.width)
    && Nat(b) < Pow2(b.width)
  }

  /** `b` is a well-formed `w`-bit value equal to `n`. */
  ghost predicate Is(b: Bits2, n: int, w: nat) {
    Valid(b) && b.width == w && Nat(b) == n
  }

  function FromWords(ws: seq<Word>, width: nat): Bits2 {
    var m := MaskedWords(ws, width);
    if width <= 64 then Bits2(Inline(And64(m[0], TopMask(width))), width) else Bits2(Wide(m), width)
  }

  lemma {:induction false} FromWordsIs(ws: seq<Word>, w: nat)
    requires w > 0
    ensures Is(FromWords(ws, w), ToNat(ws) % Pow2(w), w)
    ensures Nat(FromWords(ws, w)) == Low(ToNat(ws), w)
  {
    hide MaskedWords, TopMask, Pow2, ToNat, And64, Low;
    Split(ToNat(ws), w);
    MaskedWordsValue(ws, w);
    if w <= 64 {
      MaskTwice(ws, w);
      assert MaskedWords(ws, w) == [MaskedWords(ws, w)[0]];
    }
  }

  lemma MaskTwice(ws: seq<Word>, w: nat)
    requires 0 < w <= 64
    ensures And64(MaskedWords(ws, w)[0], TopMask(w)) == MaskedWords(ws, w)[0]
  {
    hide And, Mask, Bit, WBit;
    var x := And64(FitWords(ws, 1)[0], TopMask(w));
    BaseIsPow2();
    SameBits(And64(x, TopMask(w)), x, 64);
  }

  function Zero(w: nat): Bits2 { FromWords(Zeros(NWords(w)), w) }

  lemma ZeroIs(w: nat)
    requires w > 0
    ensures Is(Zero(w), 0, w)
  {
    hide FromWords;
    FromWordsIs(Zeros(NWords(w)), w);
    ValZeros(Zeros(NWords(w)), NWords(w));
    SmallMod(0, Pow2(w));
  }

  function Resize(b: Bits2, w: nat): Bits2 {
    if b.width == w then b else FromWords(Words(b), w)
  }

  lemma ResizeIs(b: Bits2, w: nat)
    requires Valid(b) && w > 0
    ensures Is(Resize(b, w), Nat(b) % Pow2(w), w)
    ensures b.width <= w ==> Nat(Resize(b, w)) == Nat(b)
  {
    hide FromWords, Words, Pow2;
    FromWordsIs(Words(b), w);
    if b.width <= w {
      Pow2Mono(b.width, w);
      SmallMod(Nat(b), Pow2(w));
    }
  }

  function FromU64(n: Word, w: nat): Bits2 { FromWords([n], w) }

  lemma FromU64Is(n: Word, w: nat)
    requires w > 0
    ensures Is(FromU64(n, w), n % Pow2(w), w)
  {
    hide FromWords;
    FromWordsIs([n], w);
    OneWordValue(n);
  }

  lemma OneWordValue(n: Word)
    ensures ToNat([n]) == n
  {
    assert Val([n], 1) == Val([n], 0) + Scale(n, 0);
  }

  function GetBit(b: Bits2, i: nat): bool {
    i < b.width && Bit(WordOf(b, i / 64), i % 64)
  }

  lemma GetBitIs(b: Bits2, i: nat)
    requires Valid(b)
    ensures GetBit(b, i) == Bit(Nat(b), i)
  {
    hide Bit;
    PlaneNumber(Words(b));
    HighBitsClear(Nat(b), b.width);
    assert Bit(Nat(b), i) == WBit(Words(b), i);
  }

  /** `set_bit`; the position is ignored past the width. */
  function SetBit(b: Bits2, i: nat, on: bool): Bits2
    requires |Words(b)| == NWords(b.width)
  {
    if i >= b.width then b
    else
      var ws, k := Words(b), i / 64;
      var one := Shl64(1, i % 64);
      FromWords(ws[k := if on then Or64(ws[k], one) else And64(ws[k], Not64(one))], b.width)
  }

  lemma {:induction false} SetBitIs(b: Bits2, i: nat, on: bool)
    requires Valid(b)
    ensures Valid(SetBit(b, i, on)) && SetBit(b, i, on).width == b.width
    ensures forall k: nat :: Bit(Nat(SetBit(b, i, on)), k) == if k == i && i < b.width then on else Bit(Nat(b), k)
  {
    hide Bit, FromWords, Words, Or, And, Not64, Pow2, ToNat, Low, Shl64;
    if i < b.width {
      var ws, j := Words(b), i / 64;
      var one := Shl64(1, i % 64);
      var ws' := ws[j := if on then Or64(ws[j], one) else And64(ws[j], Not64(one))];
      var r := FromWords(ws', b.width);
      FromWordsIs(ws', b.width);
      PlaneNumber(ws);
      PlaneNumber(ws');
      HighBitsClear(Nat(b), b.width);
      ShiftedOne(i % 64);
      forall k: nat ensures Bit(Nat(r), k) == if k == i then on else Bit(Nat(b), k) {
        assert Bit(ToNat(ws'), k) == WBit(ws', k) && Bit(ToNat(ws), k) == WBit(ws, k);
        assert k / 64 == j ==> (k == i <==> k % 64 == i % 64);
      }
    }
  }

  method IsZero(b: Bits2) returns (z: bool)
    ensures z <==> Nat(b) == 0
  {
    z := WordsIsZero(Words(b));
  }

  /* ---- bitwise ---- */

  function ZipAnd(a: Bits2, b: Bits2): Bits2 {
    FromWords(seq(Max(|Words(a)|, |Words(b)|), i requires 0 <= i => And64(WordOf(a, i), WordOf(b, i))), Max(a.width, b.width))
  }

  function ZipOr(a: Bits2, b: Bits2): Bits2 {
    FromWords(seq(Max(|Words(a)|, |Words(b)|), i requires 0 <= i => Or64(WordOf(a, i), WordOf(b, i))), Max(a.width, b.width))
  }

  function ZipXor(a: Bits2, b: Bits2): Bits2 {
    FromWords(seq(Max(|Words(a)|, |Words(b)|), i requires 0 <= i => Xor64(WordOf(a, i), WordOf(b, i))), Max(a.width, b.width))
  }

  function Not(a: Bits2): Bits2 {
    FromWords(seq(|Words(a)|, i requires 0 <= i => Not64(WordOf(a, i))), a.width)
  }

  /** The bits of a result built from words whose bits are known. */
  lemma FromWordsBits(ws: seq<Word>, w: nat)
    requires w > 0
    ensures forall k: nat :: Bit(Nat(FromWords(ws, w)), k) == (k < w && WBit(ws, k))
  {
    hide FromWords, Bit, Low, WBit, ToNat;
    FromWordsIs(ws, w);
    PlaneNumber(ws);
  }

  lemma WordOfBits(b: Bits2, k: nat)
    requires Valid(b)
    ensures Bit(WordOf(b, k / 64), k % 64) == Bit(Nat(b), k)
  {
    hide Bit, Words;
    PlaneNumber(Words(b));
    BitsOfZero();
    assert Bit(Nat(b), k) == WBit(Words(b), k);
  }

  lemma {:induction false} BitwiseIs(a: Bits2, b: Bits2)
    requires Valid(a) && Valid(b)
    ensures forall k: nat :: Bit(Nat(ZipAnd(a, b)), k) == (Bit(Nat(a), k) && Bit(Nat(b), k))
    ensures forall k: nat :: Bit(Nat(ZipOr(a, b)), k) == (Bit(Nat(a), k) || Bit(Nat(b), k))
    ensures forall k: nat :: Bit(Nat(ZipXor(a, b)), k) == (Bit(Nat(a), k) != Bit(Nat(b), k))
  {
    hide FromWords, Bit, And64, Or64, Xor64, Words, WordOf, Nat;
    var n, w := Max(|Words(a)|, |Words(b)|), Max(a.width, b.width);
    HighBits(a);
    HighBits(b);
    FromWordsBits(seq(n, i requires 0 <= i => And64(WordOf(a, i), WordOf(b, i))), w);
    FromWordsBits(seq(n, i requires 0 <= i => Or64(WordOf(a, i), WordOf(b, i))), w);
    FromWordsBits(seq(n, i requires 0 <= i => Xor64(WordOf(a, i), WordOf(b, i))), w);
    forall k: nat
      ensures Bit(Nat(ZipAnd(a, b)), k) == (Bit(Nat(a), k) && Bit(Nat(b), k))
      ensures Bit(Nat(ZipOr(a, b)), k) == (Bit(Nat(a), k) || Bit(Nat(b), k))
      ensures Bit(Nat(ZipXor(a, b)), k) == (Bit(Nat(a), k) != Bit(Nat(b), k))
    {
      WordOfBits(a, k);
      WordOfBits(b, k);
    }
  }

  lemma HighBits(b: Bits2)
    requires Valid(b)
    ensures forall k: nat :: k >= b.width ==> !Bit(Nat(b), k)
  {
    HighBitsClear(Nat(b), b.width);
  }

  lemma {:induction false} NotIs(a: Bits2)
    requires Valid(a)
    ensures Is(Not(a), Pow2(a.width) - 1 - Nat(a), a.width)
  {
    hide FromWords, Bit, Not64, Words, WordOf, Nat, Pow2, ToNat, Low, Flip;
    var ws := seq(|Words(a)|, i requires 0 <= i => Not64(WordOf(a, i)));
    FromWordsIs(ws, a.width);
    FromWordsBits(ws, a.width);
    forall k: nat | k < a.width ensures Bit(Nat(Not(a)), k) == Bit(Flip(Nat(a), a.width), k) { WordOfBits(a, k); }
    SameBits(Nat(Not(a)), Flip(Nat(a), a.width), a.width);
  }

  /* ---- arithmetic ---- */

  /** `a` read as `n` words, zero above its own. */
  function Pad(a: Bits2, n: nat): seq<Word> { FitWords(Words(a), n) }

  lemma PadValue(a: Bits2, n: nat)
    requires |Words(a)| <= n
    ensures ToNat(Pad(a, n)) == Nat(a)
  {
    hide Bit, Words, Radix, Val;
    var p, ws := Pad(a, n), Words(a);
    PlaneNumber(p);
    PlaneNumber(ws);
    ValBound(p, n);
    RadixIsPow2(n);
    forall k: nat ensures WBit(p, k) == WBit(ws, k) { BitsOfZero(); }
    BoundByBits(ToNat(ws), ToNat(p), 64 * n);
    SameBits(ToNat(p), ToNat(ws), 64 * n);
  }

  lemma BoundByBits(a: nat, b: nat, k: nat)
    requires b < Pow2(k) && forall i: nat :: Bit(a, i) == Bit(b, i)
    ensures a < Pow2(k)
  {
    HighBitsClear(b, k);
    BoundFromBits(a, k);
  }

  lemma WordsFit(a: Bits2, w: nat)
    requires Valid(a) && a.width <= w
    ensures |Words(a)| <= NWords(w)
  {}

  method Add(a: Bits2, b: Bits2) returns (r: Bits2)
    requires Valid(a) && Valid(b)
    ensures Is(r, (Nat(a) + Nat(b)) % Pow2(Max(a.width, b.width)), Max(a.width, b.width))
  {
    hide FromWords, Words, Pow2, Nat, ToNat, Radix;
    var w := Max(a.width, b.width);
    var n := NWords(w);
    WordsFit(a, w);
    WordsFit(b, w);
    PadValue(a, n);
    PadValue(b, n);
    var out := AddLoop(Pad(a, n), Pad(b, n));
    FromWordsIs(out, w);
    WordReduce(ToNat(out), Nat(a) + Nat(b), n, w);
    r := FromWords(out, w);
  }

  /** The `u128` carry loop of `add`. */
  method AddLoop(a: seq<Word>, b: seq<Word>) returns (out: seq<Word>)
    requires |a| == |b|
    ensures |out| == |a| && ToNat(out) == (ToNat(a) + ToNat(b)) % Radix(|a|)
  {
    hide Radix, OverflowingAdd;
    out := [];
    var carry: nat := 0;
    for i := 0 to |a|
      invariant |out| == i && carry <= 1
      invariant ToNat(out) + Scale(carry, i) == Val(a, i) + Val(b, i)
    {
      var s := a[i] + b[i] + carry;
      AddStep(a[i], b[i], carry, s % BASE, s / BASE, i);
      ValSnoc(out, s % BASE);
      out, carry := out + [s % BASE], s / BASE;
    }
    Truncated(out, carry, ToNat(a) + ToNat(b));
  }

  lemma WordReduce(x: int, y: int, n: nat, w: nat)
    requires x == y % Radix(n) && w <= 64 * n
    ensures x % Pow2(w) == y % Pow2(w)
  {
    RadixIsPow2(n);
    Reduced(y, y, 64 * n, w);
  }

  /** `a + !b + 1`; exact when the subtrahend is not narrower (see `SubExact`). */
  method Sub(a: Bits2, b: Bits2) returns (r: Bits2)
    requires Valid(a) && Valid(b)
    ensures Is(r, (Nat(a) - Nat(b) + Pow2(b.width)) % Pow2(Max(a.width, b.width)), Max(a.width, b.width))
  {
    hide Pow2, Not, Nat, FromU64;
    var w := Max(a.width, b.width);
    NotIs(b);
    FromU64Is(1, w);
    r := Add(a, Not(b));
    r := Add(r, FromU64(1, w));
    ModAddMod(Nat(a) + (Pow2(b.width) - 1 - Nat(b)), 1, Pow2(w));
  }

  lemma ModAddMod(x: int, y: int, m: int)
    requires m > 0
    ensures (x % m + y % m) % m == (x + y) % m
  {
    Distribute(m, x / m, y / m);
    Distribute(m, x / m + y / m, (x % m + y % m) / m);
    DivUnique(x + y, m, x / m + y / m + (x % m + y % m) / m, (x % m + y % m) % m);
  }

  /** Subtraction is right exactly when the subtrahend is at least as wide. */
  lemma {:induction false} SubExact(x: int, y: int, wa: nat, wb: nat)
    ensures (x - y + Pow2(wb)) % Pow2(Max(wa, wb)) == (x - y) % Pow2(Max(wa, wb)) <==> wb >= wa
  {
    hide Pow2;
    var m := Pow2(Max(wa, wb));
    if wb >= wa {
      DivUnique(x - y + m, m, (x - y) / m + 1, (x - y) % m) by { Distribute(m, (x - y) / m, 1); }
    } else {
      var p := Pow2(wb);
      Pow2Mono(wb, wa);
      var k := (x - y + p) / m - (x - y) / m;
      if (x - y + p) % m == (x - y) % m {
        Distribute(m, (x - y + p) / m, -((x - y) / m));
        assert p == m * k;
        if k >= 1 { MulMono(m, 1, k); } else { MulMono(m, k, 0); }
      }
    }
  }

  method Mul(a: Bits2, b: Bits2) returns (r: Bits2)
    requires Valid(a) && Valid(b)
    ensures Is(r, (Nat(a) * Nat(b)) % Pow2(Max(a.width, b.width)), Max(a.width, b.width))
  {
    hide FromWords, Words, Pow2, Nat, ToNat, Radix, Val;
    var w := Max(a.width, b.width);
    var n := NWords(w);
    WordsFit(a, w);
    WordsFit(b, w);
    PadValue(a, n);
    PadValue(b, n);
    var x, y := Pad(a, n), Pad(b, n);
    var out := WordsMul(x, y);
    FromWordsIs(out, w);
    WordReduce(ToNat(out), Nat(a) * Nat(b), n, w);
    r := FromWords(out, w);
  }

  /* ---- shifts ---- */

  /** Word `i` of `b << n`. */
  function ShlWord(b: Bits2, n: nat, i: nat): Word {
    var wordSh, bitSh := n / 64, n % 64;
    if i < wordSh then 0
    else
      var src := i - wordSh;
      var v := Shl64(WordOf(b, src), bitSh);
      if bitSh != 0 && src >= 1 then Or64(v, Shr(WordOf(b, src - 1), 64 - bitSh)) else v
  }

  lemma ShlWordBits(b: Bits2, n: nat, i: nat, k: nat)
    requires k < 64
    ensures Bit(ShlWord(b, n, i), k) == (64 * i + k >= n && WBit(Words(b), 64 * i + k - n))
  {
    hide Bit, Words, Or64, Shl64, Shr;
    var bitSh := n % 64;
    BitsOfZero();
    if i >= n / 64 {
      var src := i - n / 64;
      if k >= bitSh {
        assert (64 * i + k - n) / 64 == src && (64 * i + k - n) % 64 == k - bitSh;
        if src >= 1 { WordHighBits(WordOf(b, src - 1)); }
      } else if src >= 1 {
        assert (64 * i + k - n) / 64 == src - 1 && (64 * i + k - n) % 64 == k - bitSh + 64;
      }
    }
  }

  method ShiftLeft(b: Bits2, n: nat) returns (r: Bits2)
    requires Valid(b)
    ensures Is(r, (Nat(b) * Pow2(n)) % Pow2(b.width), b.width)
    ensures Nat(r) == Low(Shl(Nat(b), n), b.width)
  {
    hide FromWords, Words, Pow2, Nat, ToNat, ShlWord, Low, Shl, WBit, Bit;
    Split(Shl(Nat(b), n), b.width);
    if n >= b.width {
      ZeroIs(b.width);
      ShiftedOut(Nat(b), n, b.width);
      return Zero(b.width);
    }
    var nw := |Words(b)|;
    var out := Zeros(nw);
    for i := nw downto 0
      invariant |out| == nw
      invariant forall j :: 0 <= j < i ==> out[j] == 0
      invariant forall j :: i <= j < nw ==> out[j] == ShlWord(b, n, j)
    {
      if i < n / 64 {
        LowShlWord(b, n, i);
        continue;
      }
      out := out[i := ShlWord(b, n, i)];
    }
    ShlResult(b, n, out);
    r := FromWords(out, b.width);
  }

  lemma LowShlWord(b: Bits2, n: nat, i: nat)
    requires i < n / 64
    ensures ShlWord(b, n, i) == 0
  {}

  lemma ShiftedOut(x: nat, n: nat, w: nat)
    requires n >= w
    ensures Low(Shl(x, n), w) == 0
  {
    hide Shl, Low, Bit;
    BitsOfZero();
    SameBits(Low(Shl(x, n), w), 0, w);
  }

  lemma ShlResult(b: Bits2, n: nat, out: seq<Word>)
    requires Valid(b) && |out| == |Words(b)| && forall j :: 0 <= j < |out| ==> out[j] == ShlWord(b, n, j)
    ensures Is(FromWords(out, b.width), Low(Shl(Nat(b), n), b.width), b.width)
  {
    hide FromWords, Words, Pow2, Low, Shl, Bit, ShlWord, ToNat;
    FromWordsIs(out, b.width);
    FromWordsBits(out, b.width);
    PlaneNumber(Words(b));
    var r, l := Nat(FromWords(out, b.width)), Low(Shl(Nat(b), n), b.width);
    forall k: nat | k < b.width ensures Bit(r, k) == Bit(l, k) {
      ShlWordBits(b, n, k / 64, k % 64);
      if k >= n { assert Bit(ToNat(Words(b)), k - n) == WBit(Words(b), k - n); }
    }
    SameBits(r, l, b.width);
  }

  /** `b >> n`, each word gathered from the two it straddles. */
  method ShiftRight(b: Bits2, n: nat) returns (r: Bits2)
    requires Valid(b)
    ensures Is(r, Shr(Nat(b), n), b.width)
  {
    hide FromWords, Words, Pow2, Nat, ToNat, Shr, WBit, Bit, WordFrom;
    if n >= b.width {
      ZeroIs(b.width);
      ShrOut(Nat(b), n, b.width);
      return Zero(b.width);
    }
    var nw := |Words(b)|;
    var out := Zeros(nw);
    for i := 0 to nw
      invariant |out| == nw
      invariant forall j :: 0 <= j < i ==> out[j] == WordFrom(Words(b), n + 64 * j)
      invariant forall j :: i <= j < nw ==> out[j] == 0
    {
      if i + n / 64 >= nw {
        forall j | i <= j < nw ensures WordFrom(Words(b), n + 64 * j) == 0 { PastEnd(Words(b), n + 64 * j); }
        break;
      }
      out := out[i := WordFrom(Words(b), n + 64 * i)];
    }
    ShrResult(b, n, out);
    r := FromWords(out, b.width);
  }

  lemma PastEnd(ws: seq<Word>, pos: nat)
    requires pos / 64 >= |ws|
    ensures WordFrom(ws, pos) == 0
  {
    hide Bit, WordFrom;
    WordFromBits(ws, pos);
    forall k: nat ensures !Bit(WordFrom(ws, pos), k) {}
    BoundFromBits(WordFrom(ws, pos), 0);
  }

  lemma ShrOut(x: nat, n: nat, w: nat)
    requires n >= w && x < Pow2(w)
    ensures Shr(x, n) == 0
  {
    Pow2Mono(w, n);
    ShiftZero(x, n);
  }

  lemma ShrResult(b: Bits2, n: nat, out: seq<Word>)
    requires Valid(b) && |out| == |Words(b)| && forall j :: 0 <= j < |out| ==> out[j] == WordFrom(Words(b), n + 64 * j)
    ensures Is(FromWords(out, b.width), Shr(Nat(b), n), b.width)
  {
    hide FromWords, Words, Pow2, Shr, Bit, WordFrom, ToNat;
    FromWordsIs(out, b.width);
    FromWordsBits(out, b.width);
    PlaneNumber(Words(b));
    var r, l := Nat(FromWords(out, b.width)), Shr(Nat(b), n);
    forall k: nat | k < b.width ensures Bit(r, k) == Bit(l, k) {
      WordFromBits(Words(b), n + 64 * (k / 64));
      assert n + 64 * (k / 64) + k % 64 == k + n;
      assert Bit(ToNat(Words(b)), k + n) == WBit(Words(b), k + n);
    }
    SameBits(r, l, b.width);
  }

  /* ---- comparison, selection, concatenation ---- */

  method Ult(a: Bits2, b: Bits2) returns (lt: bool)
    ensures lt <==> Nat(a) < Nat(b)
  {
    hide Words, Val;
    var n := Max(|Words(a)|, |Words(b)|);
    PadValue(a, n);
    PadValue(b, n);
    var o := WordsCmp(Pad(a, n), Pad(b, n));
    lt := o == Less;
  }

  /** Numeric equality, whatever the widths. */
  method EqValue(a: Bits2, b: Bits2) returns (eq: bool)
    ensures eq <==> Nat(a) == Nat(b)
  {
    hide Words, Val;
    var n := Max(|Words(a)|, |Words(b)|);
    PadValue(a, n);
    PadValue(b, n);
    var i := 0;
    while i < n
      invariant i <= n && Pad(a, n)[..i] == Pad(b, n)[..i]
    {
      if WordOf(a, i) != WordOf(b, i) {
        WordDiffers(Pad(a, n), Pad(b, n), i);
        return false;
      }
      i := i + 1;
    }
    assert Pad(a, n) == Pad(b, n);
    return true;
  }

  lemma {:induction false} WordDiffers(a: seq<Word>, b: seq<Word>, i: nat)
    requires i < |a| == |b| && a[i] != b[i]
    ensures ToNat(a) != ToNat(b)
  {
    hide Bit, Val;
    PlaneNumber(a);
    PlaneNumber(b);
    BaseIsPow2();
    if ToNat(a) == ToNat(b) {
      forall k: nat | k < 64 ensures Bit(a[i], k) == Bit(b[i], k) {
        assert (64 * i + k) / 64 == i && (64 * i + k) % 64 == k;
        assert WBit(a, 64 * i + k) == WBit(b, 64 * i + k);
      }
      SameBits(a[i], b[i], 64);
    }
  }

  /** Bits `hi` down to `lo`. */
  method Slice(b: Bits2, hi: nat, lo: nat) returns (r: Bits2)
    requires Valid(b) && lo <= hi < b.width
    ensures Is(r, Low(Shr(Nat(b), lo), hi - lo + 1), hi - lo + 1)
  {
    hide FromWords, Words, Pow2, ToNat, Low, Shr;
    var s := ShiftRight(b, lo);
    FromWordsIs(Words(s), hi - lo + 1);
    r := FromWords(Words(s), hi - lo + 1);
  }

  /** `{a, low}`: `a` above `low`. */
  method Concat(a: Bits2, low: Bits2) returns (r: Bits2)
    requires Valid(a) && Valid(low)
    ensures Is(r, Nat(a) * Pow2(low.width) + Nat(low), a.width + low.width)
  {
    hide FromWords, Words, Pow2, Nat, Low, Shl, ZipOr, Bit;
    var total := a.width + low.width;
    ExtendedIs(a, total);
    ExtendedIs(low, total);
    var hi := ShiftLeft(FromWords(Words(a), total), low.width);
    var lo := FromWords(Words(low), total);
    ConcatFits(Nat(a), Nat(low), a.width, low.width);
    ShiftedFits(Nat(a), Nat(low), a.width, low.width);
    JoinedHalves(hi, lo, Nat(a), Nat(low), low.width);
    r := ZipOr(hi, lo);
  }

  lemma JoinedHalves(hi: Bits2, lo: Bits2, x: nat, y: nat, k: nat)
    requires Valid(hi) && Valid(lo) && hi.width == lo.width
    requires Nat(hi) == x * Pow2(k) && Nat(lo) == y < Pow2(k) && y + x * Pow2(k) < Pow2(hi.width)
    ensures Is(ZipOr(hi, lo), x * Pow2(k) + y, hi.width)
  {
    hide FromWords, Words, Pow2, Nat, ZipOr, Bit, Shl;
    BitwiseIs(hi, lo);
    ZipOrValid(hi, lo);
    var s := y + x * Pow2(k);
    BitsOfSumAt(s, y, x, k);
    assert Shl(x, k) == x * Pow2(k);
    HighBitsClear(y, k);
    forall i: nat | i < hi.width ensures Bit(Nat(ZipOr(hi, lo)), i) == Bit(s, i) {
      assert Bit(Nat(hi), i) == Bit(Shl(x, k), i);
    }
    SameBits(Nat(ZipOr(hi, lo)), s, hi.width);
  }

  lemma ExtendedIs(b: Bits2, w: nat)
    requires Valid(b) && b.width <= w
    ensures Is(FromWords(Words(b), w), Nat(b), w)
  {
    hide FromWords, Words, Pow2;
    FromWordsIs(Words(b), w);
    Pow2Mono(b.width, w);
    SmallMod(Nat(b), Pow2(w));
  }

  lemma ZipOrValid(a: Bits2, b: Bits2)
    requires Valid(a) && Valid(b)
    ensures Valid(ZipOr(a, b)) && ZipOr(a, b).width == Max(a.width, b.width)
  {
    hide FromWords, Words;
    FromWordsIs(seq(Max(|Words(a)|, |Words(b)|), i requires 0 <= i => Or64(WordOf(a, i), WordOf(b, i))), Max(a.width, b.width));
  }

  lemma ConcatFits(x: nat, y: nat, wa: nat, wb: nat)
    requires x < Pow2(wa) && y < Pow2(wb)
    ensures y + x * Pow2(wb) < Pow2(wa + wb)
  {
    hide Pow2;
    Pow2Add(wa, wb);
    MulMono(Pow2(wb), x + 1, Pow2(wa));
    Distribute(Pow2(wb), x, 1);
  }

  lemma ShiftedFits(x: nat, y: nat, wa: nat, wb: nat)
    requires y + x * Pow2(wb) < Pow2(wa + wb)
    ensures (x * Pow2(wb)) % Pow2(wa + wb) == x * Pow2(wb)
  {
    hide Pow2;
    MulMono(x, 0, Pow2(wb));
    SmallMod(x * Pow2(wb), Pow2(wa + wb));
  }

  /* ---- division ---- */

  /** One restoring step: the doubled remainder with the next bit fits `width + 1` bits. */
  method BringDownBit(r: Bits2, bit: bool, ghost d: nat) returns (r': Bits2)
    requires Valid(r) && r.width > 1 && Nat(r) < d < Pow2(r.width - 1)
    ensures Is(r', 2 * Nat(r) + (if bit then 1 else 0), r.width)
  {
    hide Words, Nat, FromWords, SetBit, Bit, Low, Shl, Or, ToNat;
    var w := r.width;
    assert Pow2(w) == 2 * Pow2(w - 1) && Pow2(1) == 2;
    hide Pow2;
    SmallMod(2 * Nat(r), Pow2(w));
    r' := ShiftLeft(r, 1);
    assert Nat(r') == 2 * Nat(r);
    if bit {
      LowBitSet(r', Nat(r'));
      r' := SetBit(r', 0, true);
    }
  }

  /** Setting the low bit of an even number adds one. */
  lemma LowBitSet(b: Bits2, n: nat)
    requires Is(b, n, b.width) && n % 2 == 0 && n + 1 < Pow2(b.width)
    ensures Is(SetBit(b, 0, true), n + 1, b.width)
  {
    hide Words, Nat, SetBit, Bit, Pow2;
    SetBitIs(b, 0, true);
    PlusOne(n, n + 1);
    ValidFits(SetBit(b, 0, true));
    SameBits(Nat(SetBit(b, 0, true)), n + 1, b.width);
  }

  lemma ValidFits(b: Bits2)
    requires Valid(b)
    ensures Nat(b) < Pow2(b.width)
  {}

  lemma PlusOne(n: nat, m: nat)
    requires n % 2 == 0 && m == n + 1
    ensures forall i: nat :: Bit(m, i) == if i == 0 then true else Bit(n, i)
  {
    assert m / 2 == n / 2;
  }

  lemma PowerBits(p: nat, k: nat)
    requires p == Pow2(k)
    ensures forall i: nat :: Bit(p, i) == (i == k)
  {
    OneBit(1);
    assert Shl(1, k) == p;
  }

  /** Exact division at the wider width; both zero for a zero divisor. */
  ghost predicate DividesTo(a: Bits2, b: Bits2, q: Bits2, r: Bits2) {
    && Valid(q) && Valid(r) && q.width == r.width == Max(a.width, b.width)
    && (Nat(b) == 0 ==> Nat(q) == 0 && Nat(r) == 0)
    && (Nat(b) != 0 ==> Nat(a) == Nat(q) * Nat(b) + Nat(r) && Nat(r) < Nat(b))
  }

  /** `q` holds the quotient of the dividend's bits from `i` up, `r` their remainder. */
  ghost predicate Restored(a: nat, d: nat, q: Bits2, r: Bits2, w: nat, quo: nat, i: nat) {
    && Valid(q) && q.width == w && Valid(r) && r.width == w + 1
    && Nat(q) == quo * Pow2(i) && Shr(a, i) == quo * d + Nat(r) && Nat(r) < d
  }

  /** Restoring long division; the partial remainder carries one extra bit. */
  method Divmod(a: Bits2, b: Bits2) returns (q: Bits2, r: Bits2)
    requires Valid(a) && Valid(b)
    ensures DividesTo(a, b, q, r)
  {
    hide Words, Nat, FromWords, SetBit, Pow2, Shr;
    var w := Max(a.width, b.width);
    var zero := IsZero(b);
    ZeroIs(w);
    ZeroIs(w + 1);
    if zero { return Zero(w), Zero(w); }
    if w <= 64 {
      q, r := NarrowDivmod(a, b, w);
      return;
    }
    q, r := Zero(w), Zero(w + 1);
    var d := Resize(b, w + 1);
    ResizeIs(b, w + 1);
    Pow2Mono(b.width, w);
    Pow2Mono(a.width, w);
    ShiftZero(Nat(a), w);
    ghost var quo: nat := 0;
    var i: nat := w;
    while i > 0
      invariant i <= w && Restored(Nat(a), Nat(b), q, r, w, quo, i)
    {
      i := i - 1;
      q, r, quo := RestoringStep(a, d, q, r, w, quo, i);
    }
    ResizeIs(r, w);
    SmallMod(Nat(r), Pow2(w));
    r := Resize(r, w);
    ShrByZero(Nat(a), quo);
  }

  lemma ShrByZero(a: nat, quo: nat)
    ensures Shr(a, 0) == a && quo * Pow2(0) == quo
  {}

  /** One quotient bit: bring a dividend bit down, subtract the divisor if it fits. */
  method RestoringStep(a: Bits2, d: Bits2, q0: Bits2, r0: Bits2, w: nat, ghost quo0: nat, i: nat)
    returns (q: Bits2, r: Bits2, ghost quo: nat)
    requires Valid(a) && Valid(d) && d.width == w + 1 && Nat(d) < Pow2(w) && i < w
    requires Restored(Nat(a), Nat(d), q0, r0, w, quo0, i + 1)
    ensures Restored(Nat(a), Nat(d), q, r, w, quo, i)
  {
    hide Words, Nat, FromWords, SetBit, Bit, Pow2, Shr, GetBit;
    BringDown(Nat(a), Nat(d), quo0, Nat(r0), i);
    GetBitIs(a, i);
    QuotientSet(q0, quo0, i);
    q := q0;
    r := BringDownBit(r0, GetBit(a, i), Nat(d));
    var lt := Ult(r, d);
    quo := 2 * quo0;
    if !lt {
      r := SubWithin(r, d);
      q := SetBit(q, i, true);
      quo := quo + 1;
    }
  }

  method NarrowDivmod(a: Bits2, b: Bits2, w: nat) returns (q: Bits2, r: Bits2)
    requires Valid(a) && Valid(b) && w == Max(a.width, b.width) <= 64 && Nat(b) > 0
    ensures Is(q, Nat(a) / Nat(b), w) && Is(r, Nat(a) % Nat(b), w)
    ensures Nat(a) == Nat(q) * Nat(b) + Nat(r) && Nat(r) < Nat(b)
  {
    hide FromU64, Pow2, Words, WordOf, Nat;
    var x, y := WordOf(a, 0), WordOf(b, 0);
    NarrowWord(a);
    NarrowWord(b);
    Euclid(x, y);
    FromU64Is(x / y, w);
    FromU64Is(x % y, w);
    Pow2Mono(a.width, w);
    SmallMod(x / y, Pow2(w));
    SmallMod(x % y, Pow2(w));
    q, r := FromU64(x / y, w), FromU64(x % y, w);
  }

  lemma NarrowWord(a: Bits2)
    requires Valid(a) && a.width <= 64
    ensures WordOf(a, 0) == Nat(a)
  {
    OneWordValue(WordOf(a, 0));
  }

  lemma Euclid(x: nat, y: nat)
    requires y > 0
    ensures x == x / y * y + x % y && 0 <= x % y < y && 0 <= x / y <= x && x % y <= x
  {
    MulMono(x / y, 1, y);
  }

  /** A subtraction that cannot borrow. */
  method SubWithin(r: Bits2, d: Bits2) returns (r': Bits2)
    requires Valid(r) && Valid(d) && r.width == d.width && Nat(d) <= Nat(r)
    ensures Is(r', Nat(r) - Nat(d), r.width)
  {
    hide Words, Nat, Pow2;
    r' := Sub(r, d);
    SubExact(Nat(r), Nat(d), r.width, d.width);
    SmallMod(Nat(r) - Nat(d), Pow2(r.width));
  }

  lemma QuotientSet(q: Bits2, quo: nat, i: nat)
    requires Valid(q) && i < q.width && Nat(q) == quo * Pow2(i + 1)
    ensures Nat(q) == (2 * quo) * Pow2(i)
    ensures Valid(SetBit(q, i, true)) && SetBit(q, i, true).width == q.width
    ensures Nat(SetBit(q, i, true)) == (2 * quo + 1) * Pow2(i)
  {
    hide Words, Nat, SetBit, Bit;
    var n, p := Nat(q), Pow2(i);
    DoubledProduct(quo, p);
    MultipleBits(quo, i + 1, i);
    SetBitIs(q, i, true);
    PowerBits(p, i);
    hide Pow2, Or;
    OrDisjoint(n, p) by {
      forall k: nat ensures !(Bit(n, k) && Bit(p, k)) {}
    }
    var o, m := Or(n, p), Nat(SetBit(q, i, true));
    forall k: nat ensures Bit(o, k) == Bit(m, k) {}
    BoundByBits(o, m, q.width);
    SameBits(o, m, q.width);
  }

  /** At width 0 the constructor masks nothing: the first word stays. */
  lemma {:induction false} ZeroWidthUnmasked(ws: seq<Word>)
    ensures Nat(FromWords(ws, 0)) == WordAt(ws, 0)
  {
    hide Mask, And64, ToNat;
    var first := WordAt(ws, 0);
    assert MaskedWords(ws, 0) == [And64(first, Mask(64))];
    AllOnes(first);
    OneWordValue(first);
  }

  /** The constructor reduces modulo `2^w`, and its result fits `w` bits, exactly unless bits enter a width of 0. */
  lemma {:induction false} MaskedIffWidth(ws: seq<Word>, w: nat)
    ensures Nat(FromWords(ws, w)) == ToNat(ws) % Pow2(w) <==> w > 0 || WordAt(ws, 0) == 0
    ensures Nat(FromWords(ws, w)) < Pow2(w) <==> w > 0 || WordAt(ws, 0) == 0
  {
    hide FromWords, Nat, ToNat;
    if w > 0 {
      FromWordsIs(ws, w);
    } else {
      ZeroWidthUnmasked(ws);
      assert Pow2(0) == 1;
    }
  }

  /** `[3]` at width 0 stays 3. */
  lemma {:induction false} ZeroWidthCounterexample()
    ensures Nat(FromWords([3], 0)) == 3 && 3 >= Pow2(0) && 3 != ToNat([3]) % Pow2(0)
  {
    hide FromWords, Nat, ToNat;
    ZeroWidthUnmasked([3]);
  }

  lemma AllOnes(w: Word)
    ensures And64(w, Mask(64)) == w
  {
    hide Bit, Mask, And64;
    WordHighBits(w);
    BoundFromBits(And64(w, Mask(64)), 64);
    BoundFromBits(w, 64);
    SameBits(And64(w, Mask(64)), w, 64);
  }

  /* ---- arithmetic shift right ---- */

  /** The two's-complement reading of `n` in `w` bits. */
  ghost function AsSigned(n: nat, w: nat): int {
    if w > 0 && Bit(n, w - 1) then n - Pow2(w) else n
  }

  /** Adding `p` multiples of `q * p` before dividing by `p` adds `q` multiples after. */
  lemma DivShift(y: int, p: nat, q: int)
    requires p > 0
    ensures (y + q * p) / p == y / p + q
  {
    DivUnique(y + q * p, p, y / p + q, y % p) by { Distribute(y / p, q, p); }
  }

  /** The bits of a floor shift of the signed reading. */
  ghost predicate FloorBit(x: nat, w: nat, n: nat, k: nat) {
    if k + n < w then Bit(x, k + n) else w > 0 && Bit(x, w - 1)
  }

  lemma {:induction false} FloorShift(x: nat, w: nat, n: nat)
    requires x < Pow2(w)
    ensures forall k: nat :: k < w ==> Bit((AsSigned(x, w) / Pow2(n)) % Pow2(w), k) == FloorBit(x, w, n, k)
  {
    hide Pow2, Shr, Bit, Ones, Low;
    var s := AsSigned(x, w);
    var y: nat := if w > 0 && Bit(x, w - 1) then x + Ones(n) * Pow2(w) else x;
    HighBitsClear(x, w);
    Split(y, n);
    if w > 0 && Bit(x, w - 1) {
      BitsOfSumAt(y, x, Ones(n), w);
      PredTimes2(Pow2(n), Pow2(w));
      DivShift(s, Pow2(n), Pow2(w));
    }
    var q := Shr(y, n);
    Split(q, w);
    assert (s / Pow2(n)) % Pow2(w) == Low(q, w) by { ModDrop(s / Pow2(n), q, Low(q, w), Shr(q, w), Pow2(w)); }
    forall k: nat | k < w ensures Bit(Low(q, w), k) == FloorBit(x, w, n, k) {
      assert Bit(q, k) == Bit(y, k + n);
    }
  }

  lemma PredTimes2(x: nat, y: nat)
    ensures (x - 1) * y == x * y - y == y * x - y
  {}

  /** `a` and `q` equal up to one multiple of `m`, and `q == low + h * m`. */
  lemma ModDrop(a: int, q: int, low: nat, h: int, m: nat)
    requires low < m && q == low + h * m && (a == q || a == q - m)
    ensures a % m == low
  {
    if a == q { DivUnique(a, m, h, low); } else {
      Distribute(h, -1, m);
      DivUnique(a, m, h - 1, low);
    }
  }

  /** The state of the fill loop before bit `i`. */
  ghost predicate Filling(r: Bits2, b: Bits2, n: nat, from: nat, i: nat) {
    && Valid(r) && r.width == b.width
    && forall k: nat :: k < b.width ==> Bit(Nat(r), k) == if from <= k < i then true else Bit(Nat(b), k + n)
  }

  lemma FillStep(r: Bits2, b: Bits2, n: nat, from: nat, i: nat)
    requires Filling(r, b, n, from, i) && from <= i < b.width
    ensures Filling(SetBit(r, i, true), b, n, from, i + 1)
  {
    hide Bit, Pow2, Nat, SetBit, Valid;
    SetBitIs(r, i, true);
  }

  lemma FillResult(r: Bits2, b: Bits2, n: nat, from: nat, i: nat)
    requires Valid(b) && Filling(r, b, n, from, i)
    requires if Bit(Nat(b), b.width - 1) then from == (if b.width > n then b.width - n else 0) && i == b.width else i == from
    ensures Is(r, (AsSigned(Nat(b), b.width) / Pow2(n)) % Pow2(b.width), b.width)
  {
    hide Bit, Pow2, Nat;
    HighBits(b);
    FloorShift(Nat(b), b.width, n);
    FloorFits(AsSigned(Nat(b), b.width) / Pow2(n), Pow2(b.width));
    SameBits(Nat(r), (AsSigned(Nat(b), b.width) / Pow2(n)) % Pow2(b.width), b.width);
  }

  lemma FloorFits(x: int, m: nat)
    requires m > 0
    ensures 0 <= x % m < m
  {}

  /** Shift right, then set the vacated top bits of a negative value one by one. */
  method ArithShiftRight(b: Bits2, n: nat) returns (r: Bits2)
    requires Valid(b)
    ensures Is(r, (AsSigned(Nat(b), b.width) / Pow2(n)) % Pow2(b.width), b.width)
  {
    hide Bit, Pow2, Shr, Nat, SetBit, AsSigned, Low;
    var w := b.width;
    GetBitIs(b, w - 1);
    var from: nat := if w > n then w - n else 0;
    if n == 0 {
      FillResult(b, b, n, w, w);
      return b;
    }
    r := ShiftRight(b, n);
    if !GetBit(b, w - 1) {
      FillResult(r, b, n, w, w);
      return;
    }
    for i := from to w
      invariant Filling(r, b, n, from, i)
    {
      FillStep(r, b, n, from, i);
      r := SetBit(r, i, true);
    }
    FillResult(r, b, n, from, w);
  }
}
