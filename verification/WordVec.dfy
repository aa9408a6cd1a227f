/**
 Little-endian `u64` vectors and the multi-word arithmetic on them:
 carry chains, schoolbook product, shift-subtract division.
 */
module WordVec {
  import opened WordBits

  /** `x * 2^(64 * i)`; recursive, so that carry equations stay linear. */
  function Scale(x: int, i: nat): (r: int)
    ensures x >= 0 ==> r >= x
  {
    if i == 0 then x else BASE * Scale(x, i - 1)
  }

  /** `2^(64 * n)`. */
  function Radix(n: nat): (p: nat)
    ensures p >= 1
  {
    Scale(1, n)
  }

  /** The number the first `n` words spell, least significant word first. */
  function Val(ws: seq<Word>, n: nat): (v: nat)
    requires n <= |ws|
  {
    if n == 0 then 0 else Val(ws, n - 1) + Scale(ws[n - 1], n - 1)
  }

  function ToNat(ws: seq<Word>): (v: nat)
  {
    Val(ws, |ws|)
  }

  function Zeros(n: nat): (ws: seq<Word>)
    ensures |ws| == n && forall i :: 0 <= i < n ==> ws[i] == 0
  {
    seq(n, i => 0)
  }

  /* ---- scaling ---- */

  lemma {:induction false} ScaleAdd(x: int, y: int, i: nat)
    ensures Scale(x + y, i) == Scale(x, i) + Scale(y, i)
  {
    if i > 0 { ScaleAdd(x, y, i - 1); }
  }

  lemma {:induction false} ScaleMono(x: int, y: int, i: nat)
    requires x <= y
    ensures Scale(x, i) <= Scale(y, i)
  {
    if i > 0 { ScaleMono(x, y, i - 1); }
  }

  /** A carry out of word `i` counts once at word `i + 1`. */
  lemma {:induction false} ScaleCarry(t: int, s: int, c: int, i: nat)
    requires t == s + c * BASE
    ensures Scale(t, i) == Scale(s, i) + Scale(c, i + 1)
  {
    if i > 0 { ScaleCarry(t, s, c, i - 1); }
  }

  lemma {:induction false} ScaleScale(x: int, i: nat, j: nat)
    ensures Scale(Scale(x, j), i) == Scale(x, i + j)
  {
    if i > 0 { ScaleScale(x, i - 1, j); }
  }

  lemma {:induction false} ScaleMul(a: int, y: int, i: nat)
    ensures a * Scale(y, i) == Scale(a * y, i)
  {
    if i > 0 {
      ScaleMul(a, y, i - 1);
      Assoc(a, BASE, Scale(y, i - 1));
    }
  }

  lemma ScaleIsProduct(x: int, i: nat)
    ensures Scale(x, i) == x * Radix(i)
  {
    ScaleMul(x, 1, i);
  }

  lemma {:induction false} RadixIsPow2(n: nat)
    ensures Radix(n) == Pow2(64 * n)
  {
    if n > 0 {
      RadixIsPow2(n - 1);
      BaseIsPow2();
      Pow2Add(64, 64 * (n - 1));
    }
  }

  /* ---- the number a vector spells ---- */

  lemma TopWordFits(w: Word, i: nat)
    ensures Scale(w, i) + Radix(i) <= Radix(i + 1)
  {
    var t: int := w;
    ScaleAdd(t, 1, i);
    ScaleMono(t + 1, BASE, i);
    ScaleCarry(BASE, 0, 1, i);
    ScaleAdd(0, 0, i);
  }

  lemma {:induction false} ValBound(ws: seq<Word>, n: nat)
    requires n <= |ws|
    ensures Val(ws, n) < Radix(n)
  {
    if n > 0 {
      ValBound(ws, n - 1);
      TopWordFits(ws[n - 1], n - 1);
    }
  }

  lemma {:induction false} ValPrefix(a: seq<Word>, b: seq<Word>, n: nat)
    requires n <= |a| && n <= |b|
    requires forall i :: 0 <= i < n ==> a[i] == b[i]
    ensures Val(a, n) == Val(b, n)
  {
    if n > 0 { ValPrefix(a, b, n - 1); }
  }

  lemma ValSnoc(ws: seq<Word>, w: Word)
    ensures ToNat(ws + [w]) == ToNat(ws) + Scale(w, |ws|)
  {
    ValPrefix(ws, ws + [w], |ws|);
  }

  lemma {:induction false} ValZeros(ws: seq<Word>, n: nat)
    requires n <= |ws| && forall i :: 0 <= i < n ==> ws[i] == 0
    ensures Val(ws, n) == 0
  {
    if n > 0 {
      ValZeros(ws, n - 1);
      ScaleAdd(0, 0, n - 1);
    }
  }

  lemma {:induction false} ValAtLeast(ws: seq<Word>, n: nat, k: nat)
    requires k < n <= |ws|
    ensures Val(ws, n) >= ws[k]
  {
    if k < n - 1 { ValAtLeast(ws, n - 1, k); }
  }

  lemma {:induction false} ValUpdate(ws: seq<Word>, n: nat, k: nat, w: Word)
    requires k < n <= |ws|
    ensures Val(ws[k := w], n) == Val(ws, n) + Scale(w - ws[k], k)
  {
    if k == n - 1 {
      ValPrefix(ws, ws[k := w], k);
      ScaleAdd(ws[k], w - ws[k], k);
    } else {
      ValUpdate(ws, n - 1, k, w);
    }
  }

  lemma {:induction false} ValSplit(ws: seq<Word>, m: nat, n: nat)
    requires m <= n <= |ws|
    ensures Val(ws, n) == Val(ws, m) + Scale(Val(ws[m..], n - m), m)
    decreases n
  {
    if m < n {
      ValSplit(ws, m, n - 1);
      ScaleScale(ws[n - 1], m, n - 1 - m);
      ScaleAdd(Val(ws[m..], n - 1 - m), Scale(ws[n - 1], n - 1 - m), m);
    } else {
      ScaleAdd(0, 0, m);
    }
  }

  /** Bit `i` of the number is bit `i % 64` of word `i / 64`. */
  lemma {:induction false} ValBit(ws: seq<Word>, n: nat, i: nat)
    requires n <= |ws|
    ensures Bit(Val(ws, n), i) == (i < 64 * n && Bit(ws[i / 64], i % 64))
  {
    if n == 0 {
      ZeroBit(i);
    } else {
      ValBit(ws, n - 1, i);
      ValBound(ws, n - 1);
      TopWordBit(Val(ws, n - 1), ws[n - 1], n - 1, i);
    }
  }

  lemma TopWordBit(lo: nat, w: Word, n: nat, i: nat)
    requires lo < Radix(n)
    ensures Bit(lo + Scale(w, n), i)
         == if i < 64 * n then Bit(lo, i) else i < 64 * (n + 1) && Bit(w, i - 64 * n)
  {
    RadixIsPow2(n);
    ScaleIsProduct(w, n);
    BitsOfSum(lo, w, 64 * n);
    WordHighBits(w);
  }

  /* ---- single-word steps ---- */

  function OverflowingAdd(x: Word, y: Word): (r: (Word, nat))
    ensures r.0 + r.1 * BASE == x + y && r.1 <= 1
  {
    if x + y < BASE then (x + y, 0) else (x + y - BASE, 1)
  }

  function OverflowingSub(x: Word, y: Word): (r: (Word, nat))
    ensures r.0 - r.1 * BASE == x - y && r.1 <= 1
  {
    if x >= y then (x - y, 0) else (x - y + BASE, 1)
  }

  lemma DoubledWord(w: Word)
    ensures Shl64(w, 1) + Shr(w, 63) * BASE == 2 * w && Shr(w, 63) <= 1
  {
    BaseIsPow2();
    Split(Shl(w, 1), 64);
    ShrDoubled(w, 63);
  }

  lemma ShrDoubled(w: nat, s: nat)
    ensures Shr(Shl(w, 1), s + 1) == Shr(w, s)
  {
    assert Shl(w, 1) == 2 * w;
  }

  lemma OneBit(c: nat)
    requires c <= 1
    ensures forall i: nat :: i > 0 ==> !Bit(c, i)
  {
    BitsOfZero();
    assert c / 2 == 0;
  }

  /** `(w << 1) | c` loses exactly the bit `w >> 63`. */
  lemma ShiftedWord(w: Word, c: Word)
    requires c <= 1
    ensures Or64(Shl64(w, 1), c) == Shl64(w, 1) + c
  {
    OneBit(c);
    OrDisjoint(Shl64(w, 1), c);
  }

  /* ---- addition, subtraction, negation, comparison ---- */

  /** The carry equation of word `i`, at its place in the number. */
  lemma AddStep(x: int, y: int, c: int, s: int, c': int, i: nat)
    requires x + y + c == s + c' * BASE
    ensures Scale(x, i) + Scale(y, i) + Scale(c, i) == Scale(s, i) + Scale(c', i + 1)
  {
    ScaleAdd(x, y, i);
    ScaleAdd(x + y, c, i);
    ScaleCarry(x + y + c, s, c', i);
  }

  /** A vector that equals `x` up to a carry past its top word is `x` reduced. */
  lemma Truncated(out: seq<Word>, carry: int, x: int)
    requires ToNat(out) + Scale(carry, |out|) == x
    ensures ToNat(out) == x % Radix(|out|)
    ensures 0 <= x < Radix(|out|) ==> ToNat(out) == x
  {
    if 0 <= x < Radix(|out|) { SmallMod(x, Radix(|out|)); }
    ValBound(out, |out|);
    ScaleIsProduct(carry, |out|);
    DivUnique(x, Radix(|out|), carry, ToNat(out));
  }

  lemma EmptyValues(a: seq<Word>, b: seq<Word>)
    ensures ToNat([]) == 0 && Val(a, 0) == 0 && Val(b, 0) == 0 && Scale(0, 0) == 0
  {}

  lemma SumStep(out: seq<Word>, a: seq<Word>, b: seq<Word>, i: nat, c: nat, w: Word, c': nat)
    requires i < |a| == |b| && |out| == i && a[i] + b[i] + c == w + c' * BASE
    requires ToNat(out) + Scale(c, i) == Val(a, i) + Val(b, i)
    ensures ToNat(out + [w]) + Scale(c', i + 1) == Val(a, i + 1) + Val(b, i + 1)
  {
    AddStep(a[i], b[i], c, w, c', i);
    ValSnoc(out, w);
  }

  lemma DifferenceStep(out: seq<Word>, a: seq<Word>, b: seq<Word>, i: nat, c: nat, w: Word, c': nat)
    requires i < |a| == |b| && |out| == i && w + b[i] + c == a[i] + c' * BASE
    requires ToNat(out) + Val(b, i) == Val(a, i) + Scale(c, i)
    ensures ToNat(out + [w]) + Val(b, i + 1) == Val(a, i + 1) + Scale(c', i + 1)
  {
    AddStep(w, b[i], c, a[i], c', i);
    ValSnoc(out, w);
  }

  method WordsAdd(a: seq<Word>, b: seq<Word>) returns (out: seq<Word>)
    requires |a| == |b|
    ensures |out| == |a| && ToNat(out) == (ToNat(a) + ToNat(b)) % Radix(|a|)
  {
    hide Val, Scale, Radix, ToNat;
    out := [];
    var carry: nat := 0;
    EmptyValues(a, b);
    for i := 0 to |a|
      invariant |out| == i && carry <= 1
      invariant ToNat(out) + Scale(carry, i) == Val(a, i) + Val(b, i)
    {
      var s1 := OverflowingAdd(a[i], b[i]);
      var s2 := OverflowingAdd(s1.0, carry);
      SumStep(out, a, b, i, carry, s2.0, s1.1 + s2.1);
      carry := if s1.1 == 1 || s2.1 == 1 then 1 else 0;
      out := out + [s2.0];
    }
    WholeValue(a);
    WholeValue(b);
    Truncated(out, carry, ToNat(a) + ToNat(b));
  }

  lemma WholeValue(a: seq<Word>)
    ensures ToNat(a) == Val(a, |a|)
  {}

  method WordsSub(a: seq<Word>, b: seq<Word>) returns (out: seq<Word>)
    requires |a| == |b|
    ensures |out| == |a| && ToNat(out) == (ToNat(a) - ToNat(b)) % Radix(|a|)
    ensures ToNat(a) >= ToNat(b) ==> ToNat(out) == ToNat(a) - ToNat(b)
  {
    hide Val, Scale, Radix, ToNat;
    out := [];
    var borrow: nat := 0;
    EmptyValues(a, b);
    for i := 0 to |a|
      invariant |out| == i && borrow <= 1
      invariant ToNat(out) + Val(b, i) == Val(a, i) + Scale(borrow, i)
    {
      var d1 := OverflowingSub(a[i], b[i]);
      var d2 := OverflowingSub(d1.0, borrow);
      DifferenceStep(out, a, b, i, borrow, d2.0, d1.1 + d2.1);
      borrow := if d1.1 == 1 || d2.1 == 1 then 1 else 0;
      out := out + [d2.0];
    }
    WholeValue(a);
    WholeValue(b);
    NegatedScale(borrow, |a|);
    Truncated(out, 0 - borrow as int, ToNat(a) - ToNat(b));
    ValBound(a, |a|);
  }

  lemma NegatedScale(x: int, n: nat)
    ensures Scale(0 - x, n) == 0 - Scale(x, n)
  {
    ScaleAdd(x, 0 - x, n);
    ScaleAdd(0, 0, n);
  }

  method WordsNeg(a: seq<Word>) returns (out: seq<Word>)
    ensures |out| == |a| && ToNat(out) == (0 - ToNat(a)) % Radix(|a|)
  {
    ValZeros(Zeros(|a|), |a|);
    out := WordsSub(Zeros(|a|), a);
  }

  datatype Ordering = Less | Equal | Greater

  function Compare(x: int, y: int): Ordering {
    if x < y then Less else if x == y then Equal else Greater
  }

  lemma {:induction false} TopWordDecides(a: seq<Word>, b: seq<Word>, i: nat)
    requires i < |a| && i < |b| && a[i] < b[i]
    ensures Val(a, i + 1) < Val(b, i + 1)
  {
    ValBound(a, i);
    ScaleAdd(a[i], 1, i);
    ScaleMono(a[i] + 1, b[i], i);
  }

  method WordsCmp(a: seq<Word>, b: seq<Word>) returns (o: Ordering)
    requires |a| == |b|
    ensures o == Compare(ToNat(a), ToNat(b))
  {
    var i: nat := |a|;
    while i > 0
      invariant i <= |a|
      invariant ToNat(a) + Val(b, i) == ToNat(b) + Val(a, i)
    {
      i := i - 1;
      if a[i] < b[i] { TopWordDecides(a, b, i); return Less; }
      if a[i] > b[i] { TopWordDecides(b, a, i); return Greater; }
    }
    return Equal;
  }

  method WordsIsZero(a: seq<Word>) returns (z: bool)
    ensures z <==> ToNat(a) == 0
  {
    for i := 0 to |a|
      invariant forall k :: 0 <= k < i ==> a[k] == 0
    {
      if a[i] != 0 {
        ValAtLeast(a, |a|, i);
        return false;
      }
    }
    ValZeros(a, |a|);
    return true;
  }

  /* ---- product ---- */

  lemma DoubleWordFits(x: Word, y: Word, s: Word, c: Word)
    ensures x * y + s + c < BASE * BASE
  {
    MulMono(x, y, BASE - 1);
    MulMono(BASE - 1, x, BASE - 1);
  }

  /** `a * (v + y * 2^(64 j)) * 2^(64 i)`, the factor's next word split off. */
  lemma RowFactor(a: nat, v: nat, y: nat, i: nat, j: nat)
    ensures Scale(a * (v + Scale(y, j)), i) == Scale(a * v, i) + Scale(a * y, i + j)
  {
    Distribute(a, v, Scale(y, j));
    ScaleMul(a, y, j);
    ScaleAdd(a * v, Scale(a * y, j), i);
    ScaleScale(a * y, i, j);
  }

  /** `x * y + s + c` in 128 bits, as its low and high words. */
  method MulAdd(x: Word, y: Word, s: Word, c: Word) returns (lo: Word, hi: Word)
    ensures x * y + s + c == lo + hi * BASE
  {
    var prod := x * y + s + c;
    DoubleWordFits(x, y, s, c);
    lo, hi := prod % BASE, prod / BASE;
  }

  /** One step of a row: `v`, `v0`, `vb` are the number written so far, the one it replaces, and the factor. */
  lemma RowStep(v: nat, v0: nat, vb: nat, a: nat, y: nat, o: nat, c: nat, lo: nat, hi: nat, i: nat, j: nat)
    requires v + Scale(c, i + j) == v0 + Scale(a * vb, i)
    requires a * y + o + c == lo + hi * BASE
    ensures v + Scale(lo, i + j) + Scale(hi, i + j + 1)
         == v0 + Scale(o, i + j) + Scale(a * (vb + Scale(y, j)), i)
  {
    RowFactor(a, vb, y, i, j);
    AddStep(a * y, o, c, lo, hi, i + j);
  }

  lemma RowAdvance(out: seq<Word>, out0: seq<Word>, a: Word, b: seq<Word>, i: nat, j: nat, c: Word, lo: Word, hi: Word)
    requires i + j < |out| == |out0| == |b| && out[i + j] == out0[i + j]
    requires Val(out, i + j) + Scale(c, i + j) == Val(out0, i + j) + Scale(a * Val(b, j), i)
    requires a * b[j] + out[i + j] + c == lo + hi * BASE
    ensures Val(out[i + j := lo], i + j + 1) + Scale(hi, i + j + 1)
         == Val(out0, i + j + 1) + Scale(a * Val(b, j + 1), i)
  {
    RowStep(Val(out, i + j), Val(out0, i + j), Val(b, j), a, b[j], out[i + j], c, lo, hi, i, j);
    ValPrefix(out, out[i + j := lo], i + j);
  }

  /** `out += ai * b << (64 * i)`, the carry past the top word returned. */
  method AddRow(out0: seq<Word>, ai: Word, b: seq<Word>, i: nat) returns (out: seq<Word>, carry: Word)
    requires i <= |out0| == |b|
    ensures |out| == |out0|
    ensures ToNat(out) + Scale(carry, |out|) == ToNat(out0) + Scale(ai * Val(b, |out| - i), i)
  {
    var n := |out0|;
    out, carry := out0, 0;
    ScaleAdd(0, 0, i);
    for j := 0 to n - i
      invariant |out| == n
      invariant forall k :: i + j <= k < n ==> out[k] == out0[k]
      invariant Val(out, i + j) + Scale(carry, i + j) == Val(out0, i + j) + Scale(ai * Val(b, j), i)
    {
      var lo, hi := MulAdd(ai, b[j], out[i + j], carry);
      RowAdvance(out, out0, ai, b, i, j, carry, lo, hi);
      out, carry := out[i + j := lo], hi;
    }
  }

  /** What one row drops is a multiple of the modulus. */
  lemma RowDrops(a: seq<Word>, b: seq<Word>, i: nat) returns (dropped: nat)
    requires i < |a| == |b|
    ensures Val(a, i + 1) * ToNat(b)
         == Val(a, i) * ToNat(b) + Scale(a[i] * Val(b, |b| - i), i) + Scale(dropped, |b|)
  {
    var n := |b|;
    var lo, hi := Val(b, n - i), Val(b[n - i..], i);
    dropped := a[i] * hi;
    ValSplit(b, n - i, n);
    RowSplit(Val(a, i), a[i], lo, hi, i, n - i);
  }

  lemma RowSplit(v: nat, w: nat, lo: nat, hi: nat, i: nat, j: nat)
    ensures (v + Scale(w, i)) * (lo + Scale(hi, j))
         == v * (lo + Scale(hi, j)) + Scale(w * lo, i) + Scale(w * hi, i + j)
  {
    RowProduct(v, w, lo + Scale(hi, j), i);
    RowFactor(w, lo, hi, i, j);
  }

  lemma RowProduct(v: nat, w: nat, f: nat, i: nat)
    ensures (v + Scale(w, i)) * f == v * f + Scale(w * f, i)
  {
    ScaleMul(f, w, i);
    assert f * w == w * f;
  }

  lemma ZeroWord(a: seq<Word>, i: nat)
    requires i < |a| && a[i] == 0
    ensures Val(a, i + 1) == Val(a, i)
  {
    ScaleAdd(0, 0, i);
  }

  /** Carries dropped by earlier rows and by this one add up. */
  lemma LostAdds(x: int, lost: int, dropped: int, carry: int, n: nat)
    ensures x + Scale(lost + dropped + carry, n) == x + Scale(lost, n) + Scale(dropped, n) + Scale(carry, n)
  {
    ScaleAdd(lost, dropped, n);
    ScaleAdd(lost + dropped, carry, n);
  }

  lemma NoProduct(ws: seq<Word>, a: seq<Word>, f: nat)
    requires forall i :: 0 <= i < |ws| ==> ws[i] == 0
    ensures ToNat(ws) + Scale(0, |ws|) == Val(a, 0) * f
  {
    ValZeros(ws, |ws|);
    ScaleAdd(0, 0, |ws|);
  }

  /** Schoolbook product modulo `2^(64 * len)`: each row drops the carry past the top word. */
  method WordsMul(a: seq<Word>, b: seq<Word>) returns (out: seq<Word>)
    requires |a| == |b|
    ensures |out| == |a| && ToNat(out) == (ToNat(a) * ToNat(b)) % Radix(|a|)
  {
    hide Val, Scale, Radix, ToNat;
    var n := |a|;
    out := Zeros(n);
    ghost var lost: nat := 0;
    NoProduct(out, a, ToNat(b));
    for i := 0 to n
      invariant |out| == n
      invariant ToNat(out) + Scale(lost, n) == Val(a, i) * ToNat(b)
    {
      if a[i] == 0 {
        ZeroWord(a, i);
        continue;
      }
      ghost var dropped := RowDrops(a, b, i);
      var row, carry := AddRow(out, a[i], b, i);
      LostAdds(ToNat(row), lost, dropped, carry, n);
      out, lost := row, lost + dropped + carry;
    }
    WholeValue(a);
    Truncated(out, lost, ToNat(a) * ToNat(b));
  }

  /* ---- division ---- */

  /** The number of significant bits: `64 - w.leading_zeros()`. */
  function BitLen(w: nat): (l: nat)
    ensures w < Pow2(l)
    decreases w
  {
    if w == 0 then 0 else 1 + BitLen(w / 2)
  }

  /** Position just above the highest set bit of the first `n` words. */
  function TopBit(ws: seq<Word>, n: nat): (t: nat)
    requires n <= |ws|
  {
    if n == 0 then 0 else if ws[n - 1] != 0 then (n - 1) * 64 + BitLen(ws[n - 1]) else TopBit(ws, n - 1)
  }

  lemma {:induction false} BitLenMax(w: nat, k: nat)
    requires w < Pow2(k)
    ensures BitLen(w) <= k
    decreases k
  {
    if k > 0 && w > 0 { BitLenMax(w / 2, k - 1); }
  }

  lemma {:induction false} TopBitBound(ws: seq<Word>, n: nat)
    requires n <= |ws|
    ensures TopBit(ws, n) <= 64 * n && Val(ws, n) < Pow2(TopBit(ws, n))
  {
    hide BitLen, Pow2;
    if n > 0 {
      var w := ws[n - 1];
      if w == 0 {
        TopBitBound(ws, n - 1);
        ScaleAdd(0, 0, n - 1);
      } else {
        BaseIsPow2();
        BitLenMax(w, 64);
        ValBound(ws, n - 1);
        TopWordBelow(Val(ws, n - 1), w, n - 1, BitLen(w));
      }
    }
  }

  lemma TopWordBelow(lo: nat, w: nat, n: nat, l: nat)
    requires lo < Radix(n) && w < Pow2(l)
    ensures lo + Scale(w, n) < Pow2(64 * n + l)
  {
    hide Pow2, Scale, Radix;
    var x: int := w;
    ScaleAdd(x, 1, n);
    ScaleMono(x + 1, Pow2(l), n);
    ScaleIsProduct(Pow2(l), n);
    UnitScale(n);
    RadixIsPow2(n);
    Pow2Add(64 * n, l);
  }

  lemma UnitScale(n: nat)
    ensures Scale(1, n) == Radix(n)
  {}

  lemma ShiftStep(w: Word, c: Word, i: nat)
    requires c <= 1
    ensures Scale(Or64(Shl64(w, 1), c), i) + Scale(Shr(w, 63), i + 1) == 2 * Scale(w, i) + Scale(c, i)
    ensures Shr(w, 63) <= 1
  {
    ShiftedWord(w, c);
    DoubledWord(w);
    AddStep(w, w, c, Or64(Shl64(w, 1), c), Shr(w, 63), i);
  }

  /** `r = (r << 1) | c` over the whole vector, the top carry dropped. */
  method ShiftIn(r: seq<Word>, bit: Word) returns (out: seq<Word>)
    requires bit <= 1
    ensures |out| == |r| && ToNat(out) == (2 * ToNat(r) + bit) % Radix(|r|)
    ensures 2 * ToNat(r) + bit < Radix(|r|) ==> ToNat(out) == 2 * ToNat(r) + bit
  {
    hide Or, Or64, Shl64, Shr, Low, Bit;
    out := [];
    var c: Word := bit;
    for i := 0 to |r|
      invariant |out| == i && c <= 1
      invariant ToNat(out) + Scale(c, i) == 2 * Val(r, i) + bit
    {
      ShiftStep(r[i], c, i);
      ValSnoc(out, Or64(Shl64(r[i], 1), c));
      out, c := out + [Or64(Shl64(r[i], 1), c)], Shr(r[i], 63);
    }
    Truncated(out, c, 2 * ToNat(r) + bit);
  }

  lemma PowerAtWord(k: nat)
    ensures Scale(Pow2(k % 64), k / 64) == Pow2(k)
  {
    ScaleIsProduct(Pow2(k % 64), k / 64);
    RadixIsPow2(k / 64);
    Pow2Add(k % 64, 64 * (k / 64));
  }

  /** `ws[k / 64] |= 1 << (k % 64)`. */
  function SetBit(ws: seq<Word>, k: nat): (r: seq<Word>)
    requires k < 64 * |ws|
    ensures |r| == |ws|
  {
    ws[k / 64 := Or64(ws[k / 64], Shl64(1, k % 64))]
  }

  lemma ShiftedOne(s: nat)
    requires s < 64
    ensures Shl64(1, s) == Pow2(s)
    ensures forall i: nat :: Bit(Shl64(1, s), i) == (i == s)
  {
    OneBit(1);
    BaseIsPow2();
    Pow2Mono(s, 64);
    assert Shl(1, s) == Pow2(s);
    Split(Pow2(s), 64);
    SmallMod(Pow2(s), Pow2(64));
  }

  lemma SetClearBit(ws: seq<Word>, k: nat)
    requires k < 64 * |ws| && !Bit(ToNat(ws), k)
    ensures ToNat(SetBit(ws, k)) == ToNat(ws) + Pow2(k)
  {
    hide Bit, Or, Shl64;
    ValBit(ws, |ws|, k);
    ShiftedOne(k % 64);
    OrDisjoint(ws[k / 64], Shl64(1, k % 64));
    ValUpdate(ws, |ws|, k / 64, Or64(ws[k / 64], Shl64(1, k % 64)));
    PowerAtWord(k);
  }

  lemma {:induction false} ShrStep(n: nat, s: nat)
    ensures Shr(n, s) == 2 * Shr(n, s + 1) + (if Bit(n, s) then 1 else 0)
    decreases s
  {
    if s > 0 { ShrStep(n / 2, s - 1); }
  }

  /** A multiple of `2^k` keeps its low `k` bits clear. */
  lemma MultipleBits(m: nat, k: nat, i: nat)
    requires i < k
    ensures !Bit(m * Pow2(k), i)
  {
    assert Shl(m, k) == m * Pow2(k);
  }

  lemma ShiftZero(a: nat, k: nat)
    requires a < Pow2(k)
    ensures Shr(a, k) == 0
  {
    Split(a, k);
    SmallMod(a, Pow2(k));
  }

  lemma ReadBit(ws: seq<Word>, k: nat)
    requires k < 64 * |ws|
    ensures And64(Shr(ws[k / 64], k % 64), 1) == if Bit(ToNat(ws), k) then 1 else 0
  {
    ValBit(ws, |ws|, k);
    LowBit(Shr(ws[k / 64], k % 64));
  }

  lemma LowBit(w: Word)
    ensures And64(w, 1) == w % 2 == if Bit(w, 0) then 1 else 0
  {
    assert And(w / 2, 0) == 0;
  }

  /** Bringing down one dividend bit: the doubled remainder is a prefix of the dividend. */
  lemma {:induction false} BringDown(a: nat, b: nat, quo: nat, r: nat, bit: nat)
    requires Shr(a, bit + 1) == quo * b + r
    ensures var t := 2 * r + (if Bit(a, bit) then 1 else 0);
            t <= a && Shr(a, bit) == (2 * quo) * b + t == (2 * quo + 1) * b + t - b
  {
    hide Shr, Bit;
    ShrStep(a, bit);
    MulMono(b, 0, quo);
    TwiceProduct(quo, b);
  }

  lemma TwiceProduct(quo: int, b: int)
    ensures (2 * quo) * b == 2 * (quo * b) && (2 * quo + 1) * b == 2 * (quo * b) + b
  {}

  /** The quotient bit: setting it doubles the quotient prefix and adds one. */
  lemma QuotientBit(q: seq<Word>, quo: nat, bit: nat)
    requires bit < 64 * |q| && ToNat(q) == quo * Pow2(bit + 1)
    ensures ToNat(q) == (2 * quo) * Pow2(bit)
    ensures ToNat(SetBit(q, bit)) == (2 * quo + 1) * Pow2(bit)
  {
    hide SetBit, ToNat, Bit;
    MultipleBits(quo, bit + 1, bit);
    SetClearBit(q, bit);
    DoubledProduct(quo, Pow2(bit));
  }

  lemma DoubledProduct(x: nat, p: nat)
    ensures x * (2 * p) == (2 * x) * p
    ensures x * (2 * p) + p == (2 * x + 1) * p
  {}

  /**
   Unsigned quotient and remainder, shift-subtract, one bit per step. `r` has
   no guard bit: at every step it is at most the dividend's remaining prefix,
   so the shift never loses one.
   */
  method WordsDivmod(a: seq<Word>, b: seq<Word>) returns (q: seq<Word>, r: seq<Word>)
    requires |a| == |b| && ToNat(b) > 0
    ensures |q| == |r| == |a|
    ensures ToNat(a) == ToNat(q) * ToNat(b) + ToNat(r) && ToNat(r) < ToNat(b)
  {
    var n := |a|;
    q, r := Zeros(n), Zeros(n);
    ValZeros(q, n);
    var bit: nat := TopBit(a, n);
    ghost var quo: nat := 0;
    TopBitBound(a, n);
    ShiftZero(ToNat(a), bit);
    ValBound(a, n);
    while bit > 0
      invariant |q| == |r| == n && bit <= 64 * n
      invariant ToNat(q) == quo * Pow2(bit)
      invariant Shr(ToNat(a), bit) == quo * ToNat(b) + ToNat(r) && ToNat(r) < ToNat(b)
    {
      bit := bit - 1;
      BringDown(ToNat(a), ToNat(b), quo, ToNat(r), bit);
      QuotientBit(q, quo, bit);
      ReadBit(a, bit);
      r := ShiftIn(r, And64(Shr(a[bit / 64], bit % 64), 1));
      var o := WordsCmp(r, b);
      if o != Less {
        r := WordsSub(r, b);
        q := SetBit(q, bit);
      }
      quo := 2 * quo + if o != Less then 1 else 0;
    }
  }
}
