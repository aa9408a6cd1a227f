/** Decimal literals and decimal printing of values of any width. */
module Decimal {
  import opened Names
  import opened WordBits
  import opened WordVec
  import opened Planes
  import opened Congruence
  import opened Values
  import opened ValueArith
  import opened ValueMove
  import opened Reductions
  import opened Equality

  /* ---- decimal text ---- */

  predicate IsDigit(c: char) { '0' <= c <= '9' }

  function DigitOf(c: char): nat
    requires IsDigit(c)
  {
    (c - '0') as int
  }

  function DigitChar(d: nat): (c: char)
    requires d < 10
    ensures IsDigit(c) && DigitOf(c) == d
  {
    '0' + d as char
  }

  predicate AllDigits(s: string) { forall i :: 0 <= i < |s| ==> IsDigit(s[i]) }

  /** The number a digit string denotes. */
  function DecValue(s: string): nat
    requires AllDigits(s)
  {
    if s == [] then 0 else 10 * DecValue(s[..|s| - 1]) + DigitOf(s[|s| - 1])
  }

  /** The canonical decimal text of a number. */
  function Digits(n: nat): (s: string)
    ensures |s| > 0 && AllDigits(s)
  {
    if n < 10 then [DigitChar(n)] else Digits(n / 10) + [DigitChar(n % 10)]
  }

  function Printed(x: int): string {
    if x < 0 then "-" + Digits(-x) else Digits(x)
  }

  lemma {:induction false} DigitsValue(n: nat)
    ensures DecValue(Digits(n)) == n
    ensures Digits(n)[0] == '0' ==> n == 0
  {
    if n < 10 {
      DecSnoc([], DigitChar(n));
      assert [] + [DigitChar(n)] == Digits(n);
    } else {
      DigitsValue(n / 10);
      DecSnoc(Digits(n / 10), DigitChar(n % 10));
    }
  }

  lemma DecSnoc(s: string, c: char)
    requires AllDigits(s) && IsDigit(c)
    ensures AllDigits(s + [c]) && DecValue(s + [c]) == 10 * DecValue(s) + DigitOf(c)
  {
    assert (s + [c])[..|s|] == s;
  }

  /** A nonempty digit string with no leading zero is the canonical text of its value. */
  lemma {:induction false} CanonicalText(s: string)
    requires |s| > 0 && AllDigits(s) && (s[0] == '0' ==> |s| == 1)
    ensures s == Digits(DecValue(s))
  {
    var h, d := s[..|s| - 1], DigitOf(s[|s| - 1]);
    assert s == h + [s[|s| - 1]];
    if |s| > 1 {
      CanonicalText(h);
      PositiveValue(h);
      assert DecValue(s) / 10 == DecValue(h) && DecValue(s) % 10 == d;
    } else {
      assert DecValue(h) == 0;
    }
  }

  lemma {:induction false} PositiveValue(s: string)
    requires |s| > 0 && AllDigits(s) && s[0] != '0'
    ensures DecValue(s) > 0
  {
    if |s| > 1 { PositiveValue(s[..|s| - 1]); }
  }

  /** The ten digits. */
  lemma {:induction false} DigitTexts(d: nat)
    requires d < 10
    ensures DigitChar(d) == "0123456789"[d] && DigitOf("0123456789"[d]) == d
  {}

  /** The integer a printed text denotes. */
  function ReadInt(s: string): Option<int> {
    if s != [] && AllDigits(s) then Some(DecValue(s))
    else if |s| > 1 && s[0] == '-' && AllDigits(s[1..]) then Some(0 - DecValue(s[1..]))
    else None
  }

  /** A printed integer reads back, and has no sign but the minus of a negative one. */
  lemma {:induction false} PrintedReads(x: int)
    ensures ReadInt(Printed(x)) == Some(x) && (Printed(x)[0] == '-' <==> x < 0)
  {
    if x < 0 {
      DigitsValue(-x);
      assert Printed(x)[1..] == Digits(-x);
    } else {
      DigitsValue(x);
    }
  }

  /* ---- reading ---- */

  function StripPlus(s: string): string {
    if s != [] && s[0] == '+' then s[1..] else s
  }

  predicate Malformed(s: string) {
    StripPlus(s) == [] || !AllDigits(StripPlus(s))
  }

  /** Well-formed literals are digits, at least one, behind at most one plus sign. */
  lemma {:induction false} WellFormedTexts(text: string, d: string)
    ensures d != [] && AllDigits(d) ==> !Malformed(d) && StripPlus(d) == d && !Malformed("+" + d) && StripPlus("+" + d) == d
    ensures !Malformed(text) ==> (text == StripPlus(text) || text == "+" + StripPlus(text)) && StripPlus(text) != [] && AllDigits(StripPlus(text))
  {
    assert ("+" + d)[1..] == d;
    if text != [] && text[0] == '+' { assert text == "+" + text[1..]; }
  }

  /** `limbs = limbs * 10`, the carry out of the top word dropped. */
  method TimesTen(limbs: seq<Word>) returns (out: seq<Word>)
    ensures |out| == |limbs| && ToNat(out) == (10 * ToNat(limbs)) % Radix(|limbs|)
  {
    hide Val, Scale, Radix;
    out := limbs;
    var carry: nat := 0;
    ZeroPrefix(limbs);
    for i := 0 to |limbs|
      invariant |out| == |limbs| && carry < 10
      invariant forall j :: i <= j < |limbs| ==> out[j] == limbs[j]
      invariant Val(out, i) + Scale(carry, i) == 10 * Val(limbs, i)
    {
      var prod := out[i] * 10 + carry;
      TenStep(out, limbs, i, carry, prod % BASE, prod / BASE);
      out := out[i := prod % BASE];
      carry := prod / BASE;
    }
    DroppedCarry(out, carry, 10 * ToNat(limbs));
  }

  lemma ZeroPrefix(ws: seq<Word>)
    ensures Val(ws, 0) == 0 && Scale(0, 0) == 0
  {}

  lemma TenStep(out: seq<Word>, limbs: seq<Word>, i: nat, carry: nat, w: Word, c: nat)
    requires i < |out| == |limbs| && out[i] == limbs[i] && w + c * BASE == limbs[i] * 10 + carry
    requires Val(out, i) + Scale(carry, i) == 10 * Val(limbs, i)
    ensures Val(out[i := w], i + 1) + Scale(c, i + 1) == 10 * Val(limbs, i + 1)
  {
    ValPrefix(out, out[i := w], i);
    ScaleCarry(limbs[i] * 10 + carry, w, c, i);
    var x: int := limbs[i];
    ScaleAdd(10 * x, carry, i);
    ScaleMul(10, limbs[i], i);
  }

  /** What is left of `v + carry * 2^(64 * n)` in `n` words. */
  lemma DroppedCarry(out: seq<Word>, carry: nat, x: nat)
    requires Val(out, |out|) + Scale(carry, |out|) == x
    ensures ToNat(out) == x % Radix(|out|)
  {
    hide Val, Scale, Radix;
    ValBound(out, |out|);
    ScaleIsProduct(carry, |out|);
    DivUnique(x, Radix(|out|), carry, ToNat(out));
  }

  /** `limbs = limbs + d`, stopping once the carry is absorbed. */
  method PlusDigit(limbs: seq<Word>, d: Word) returns (out: seq<Word>)
    ensures |out| == |limbs| && ToNat(out) == (ToNat(limbs) + d) % Radix(|limbs|)
  {
    hide Val, Scale, Radix;
    out := limbs;
    var carry: nat := d;
    ZeroPrefix(limbs);
    ScaleAtZero(d);
    var i := 0;
    while i < |limbs|
      invariant 0 <= i <= |limbs| == |out| && carry < BASE
      invariant forall j :: i <= j < |limbs| ==> out[j] == limbs[j]
      invariant Val(out, i) + Scale(carry, i) == Val(limbs, i) + d
    {
      var sum := out[i] + carry;
      PlusStep(out, limbs, i, carry, sum % BASE, sum / BASE, d);
      out := out[i := sum % BASE];
      carry := sum / BASE;
      i := i + 1;
      if carry == 0 { break; }
    }
    if carry == 0 {
      Untouched(out, limbs, i, d);
    }
    DroppedCarry(out, if i == |limbs| then carry else 0, ToNat(limbs) + d);
  }

  lemma ScaleAtZero(x: int)
    ensures Scale(x, 0) == x
  {}

  lemma PlusStep(out: seq<Word>, limbs: seq<Word>, i: nat, carry: nat, w: Word, c: nat, d: nat)
    requires i < |out| == |limbs| && out[i] == limbs[i] && w + c * BASE == limbs[i] + carry
    requires Val(out, i) + Scale(carry, i) == Val(limbs, i) + d
    ensures Val(out[i := w], i + 1) + Scale(c, i + 1) == Val(limbs, i + 1) + d
  {
    ValPrefix(out, out[i := w], i);
    ScaleCarry(limbs[i] + carry, w, c, i);
    ScaleAdd(limbs[i], carry, i);
  }

  /** The words above an absorbed carry keep their value. */
  lemma Untouched(out: seq<Word>, limbs: seq<Word>, i: nat, d: nat)
    requires i <= |out| == |limbs| && forall j :: i <= j < |limbs| ==> out[j] == limbs[j]
    requires Val(out, i) + Scale(0, i) == Val(limbs, i) + d
    ensures Val(out, |out|) + Scale(0, |out|) == ToNat(limbs) + d
  {
    hide Val, Scale;
    ValSplit(out, i, |out|);
    ValSplit(limbs, i, |limbs|);
    assert out[i..] == limbs[i..];
    ScaleAdd(0, 0, i);
    ScaleAdd(0, 0, |out|);
  }

  /** One accumulator step in modular arithmetic. */
  lemma DigitStep(acc: int, x: int, d: int, w: nat)
    requires Cong(acc, x, w)
    ensures Cong((10 * acc) % Pow2(w) + d, 10 * x + d, w)
  {
    hide Pow2;
    CongMul(10, 10, acc, x, w);
    Idempotent(10 * acc, w);
    CongAdd((10 * acc) % Pow2(w), 10 * x, d, d, w);
  }

  lemma PrefixValue(s: string, i: nat)
    requires i < |s| && AllDigits(s)
    ensures DecValue(s[..i + 1]) == 10 * DecValue(s[..i]) + DigitOf(s[i])
  {
    assert s[..i + 1][..i] == s[..i];
  }

  /** `from_decimal_str`: a `u128` accumulator up to 128 bits, limbs above. */
  method FromDecimal(s: string, width: nat) returns (r: Value)
    ensures Malformed(s) ==> r == AllUnknown(CapWidth(width))
    ensures !Malformed(s) ==> Holds(r, DecValue(StripPlus(s)), CapWidth(width), false)
  {
    hide AllUnknown, FromU64, FromU128, Val, Scale, Radix, Pow2, Holds;
    var w, digits := CapWidth(width), StripPlus(s);
    if digits == [] || !AllDigits(digits) { return AllUnknown(w); }
    assert digits[..|digits|] == digits;
    if w <= 128 {
      var acc := ShortAccumulate(digits);
      if w <= 64 {
        CongWeaken(acc, DecValue(digits), 128, w);
        NarrowResult(acc, DecValue(digits), w);
        return FromU64(acc % BASE, w);
      }
      CongWeaken(acc, DecValue(digits), 128, w);
      MidResult(acc, DecValue(digits), w);
      SmallMod(acc, BASE * BASE);
      return FromU128(acc, w);
    }
    r := LongAccumulate(digits, w);
  }

  /** The wrapping 128-bit accumulator. */
  method ShortAccumulate(digits: string) returns (acc: nat)
    requires AllDigits(digits)
    ensures acc < BASE * BASE && Cong(acc, DecValue(digits), 128)
  {
    hide Pow2, Cong;
    acc := 0;
    BaseSquared();
    CongSame(0, 128);
    for i := 0 to |digits|
      invariant acc < BASE * BASE && Cong(acc, DecValue(digits[..i]), 128)
    {
      PrefixValue(digits, i);
      DigitStep(acc, DecValue(digits[..i]), DigitOf(digits[i]), 128);
      ModCong((10 * acc) % (BASE * BASE) + DigitOf(digits[i]), 10 * DecValue(digits[..i]) + DigitOf(digits[i]), 128);
      acc := ((10 * acc) % (BASE * BASE) + DigitOf(digits[i])) % (BASE * BASE);
    }
    assert digits[..|digits|] == digits;
  }

  lemma CongSame(x: int, w: nat)
    ensures Cong(x, x, w)
  {}

  lemma ModCong(a: int, b: int, w: nat)
    requires Cong(a, b, w)
    ensures Cong(a % Pow2(w), b, w) && 0 <= a % Pow2(w) < Pow2(w)
  {
    Idempotent(a, w);
  }

  /** The limb vector of a width above 128 bits. */
  method LongAccumulate(digits: string, w: nat) returns (r: Value)
    requires AllDigits(digits) && 128 < w <= MAX_WIDTH
    ensures Holds(r, DecValue(digits), w, false)
  {
    hide Val, Scale, Radix, Pow2, Cong, FromWords, Holds;
    var n := NWords(w);
    var limbs := Zeros(n);
    ValZeros(limbs, n);
    RadixIsPow2(n);
    CongSame(0, 64 * n);
    for i := 0 to |digits|
      invariant |limbs| == n && Cong(ToNat(limbs), DecValue(digits[..i]), 64 * n)
    {
      PrefixValue(digits, i);
      DigitStep(ToNat(limbs), DecValue(digits[..i]), DigitOf(digits[i]), 64 * n);
      limbs := TimesTen(limbs);
      ghost var t := ToNat(limbs) + DigitOf(digits[i]);
      ModCong(t, 10 * DecValue(digits[..i]) + DigitOf(digits[i]), 64 * n);
      limbs := PlusDigit(limbs, DigitOf(digits[i]));
    }
    assert digits[..|digits|] == digits;
    CongWeaken(ToNat(limbs), DecValue(digits), 64 * n, w);
    ValBound(limbs, n);
    SmallMod(ToNat(limbs), Radix(n));
    WideResult(limbs, ToNat(limbs), DecValue(digits), w);
    r := FromWords(limbs, w);
  }

  /* ---- printing ---- */

  /** Little-endian digits `ds` in base `b`. */
  function LEValue(ds: seq<nat>, b: nat): nat {
    if ds == [] then 0 else ds[0] + b * LEValue(ds[1..], b)
  }

  /** `2 * ds + carry`, as base-10 carries propagate upward. */
  function Doubled(ds: seq<nat>, carry: nat): seq<nat> {
    if ds == [] then (if carry > 0 then [carry] else [])
    else [(2 * ds[0] + carry) % 10] + Doubled(ds[1..], (2 * ds[0] + carry) / 10)
  }

  /** Base-10 digits with no leading zero but for a lone 0. */
  predicate Decimal(ds: seq<nat>) {
    |ds| > 0 && (forall i :: 0 <= i < |ds| ==> ds[i] < 10) && (ds[|ds| - 1] == 0 ==> |ds| == 1)
  }

  lemma {:induction false} DoubledValue(ds: seq<nat>, carry: nat)
    ensures LEValue(Doubled(ds, carry), 10) == 2 * LEValue(ds, 10) + carry
  {
    if ds != [] { DoubledValue(ds[1..], (2 * ds[0] + carry) / 10); }
    else if carry > 0 { assert [carry][1..] == []; }
  }

  lemma {:induction false} DoubledDecimal(ds: seq<nat>, carry: nat)
    requires |ds| > 0 && (forall i :: 0 <= i < |ds| ==> ds[i] < 10) && carry <= 1
    requires ds[|ds| - 1] > 0
    ensures Decimal(Doubled(ds, carry)) && Doubled(ds, carry)[|Doubled(ds, carry)| - 1] > 0
  {
    var c := (2 * ds[0] + carry) / 10;
    if |ds| > 1 {
      DoubledDecimal(ds[1..], c);
    } else {
      assert Doubled(ds[1..], c) == if c > 0 then [c] else [];
    }
  }

  /** The in-place doubling loop with its pushed carry. */
  method Double(ds: seq<nat>, bit: nat) returns (out: seq<nat>)
    requires Decimal(ds) && bit <= 1
    ensures Decimal(out) && LEValue(out, 10) == 2 * LEValue(ds, 10) + bit
  {
    hide Decimal, LEValue, Doubled;
    ghost var goal := Doubled(ds, bit);
    DoubledValue(ds, bit);
    DoubledStays(ds, bit);
    out := ds;
    var carry := bit;
    for i := 0 to |ds|
      invariant |out| == |ds| && out[i..] == ds[i..]
      invariant out[..i] + Doubled(ds[i..], carry) == goal
      invariant forall j :: 0 <= j < |ds| ==> ds[j] < 10
      invariant carry <= 1
    {
      var v := out[i] * 2 + carry;
      DoubleStep(ds, out, i, carry, goal);
      out := out[i := v % 10];
      carry := v / 10;
    }
    DoubleEnd(ds, out, carry);
    while carry > 0
      invariant carry <= 1 && out + (if carry > 0 then [carry] else []) == goal
    {
      out := out + [carry % 10];
      carry := carry / 10;
    }
    assert out == goal;
  }

  lemma DoubleStep(ds: seq<nat>, out: seq<nat>, i: nat, carry: nat, goal: seq<nat>)
    requires i < |ds| == |out| && ds[i] < 10 && carry <= 1
    requires out[i..] == ds[i..] && out[..i] + Doubled(ds[i..], carry) == goal
    ensures out[i] == ds[i]
    ensures var v := out[i] * 2 + carry;
      out[i := v % 10][..i + 1] + Doubled(ds[i + 1..], v / 10) == goal
    ensures var v := out[i] * 2 + carry; out[i := v % 10][i + 1..] == ds[i + 1..]
  {
    assert out[i] == out[i..][0] == ds[i..][0] == ds[i];
    var v := out[i] * 2 + carry;
    assert ds[i..][1..] == ds[i + 1..];
    assert out[i := v % 10][..i + 1] == out[..i] + [v % 10];
    forall j | i + 1 <= j < |ds| ensures out[j] == ds[j] { assert out[i..][j - i] == ds[i..][j - i]; }
  }

  lemma DoubleEnd(ds: seq<nat>, out: seq<nat>, carry: nat)
    requires |out| == |ds|
    ensures out[..|ds|] + Doubled(ds[|ds|..], carry) == out + (if carry > 0 then [carry] else [])
  {
    assert out[..|ds|] == out && ds[|ds|..] == [];
  }

  lemma DoubledStays(ds: seq<nat>, bit: nat)
    requires Decimal(ds) && bit <= 1
    ensures Decimal(Doubled(ds, bit)) && forall j :: 0 <= j < |ds| ==> ds[j] < 10
  {
    if ds[|ds| - 1] > 0 {
      DoubledDecimal(ds, bit);
    } else {
      assert ds == [0] && ds[1..] == [];
      assert Doubled(ds[1..], 0) == [];
      assert Doubled(ds, bit) == [bit];
    }
  }

  /** The text of little-endian digits, most significant first. */
  function Shown(ds: seq<nat>): (s: string)
    requires forall i :: 0 <= i < |ds| ==> ds[i] < 10
    ensures |s| == |ds| && AllDigits(s)
    ensures |ds| > 0 ==> s[0] == DigitChar(ds[|ds| - 1])
  {
    if ds == [] then [] else Shown(ds[1..]) + [DigitChar(ds[0])]
  }

  lemma {:induction false} ShownValue(ds: seq<nat>)
    requires forall i :: 0 <= i < |ds| ==> ds[i] < 10
    ensures DecValue(Shown(ds)) == LEValue(ds, 10)
  {
    if ds != [] {
      ShownValue(ds[1..]);
      assert Shown(ds)[..|ds| - 1] == Shown(ds[1..]);
    }
  }

  lemma ShownCanonical(ds: seq<nat>)
    requires Decimal(ds)
    ensures Shown(ds) == Digits(LEValue(ds, 10))
  {
    ShownValue(ds);
    CanonicalText(Shown(ds));
  }

  /* ---- magnitude bits ---- */

  predicate IsBits(bs: seq<nat>) { forall i :: 0 <= i < |bs| ==> bs[i] <= 1 }

  lemma {:induction false} BitsValue(bs: seq<nat>)
    requires IsBits(bs)
    ensures LEValue(bs, 2) < Pow2(|bs|)
    ensures forall i: nat :: Bit(LEValue(bs, 2), i) == (i < |bs| && bs[i] == 1)
  {
    if bs == [] {
      BitsOfZero();
    } else {
      BitsValue(bs[1..]);
      var n, h := LEValue(bs, 2), LEValue(bs[1..], 2);
      assert n / 2 == h && n % 2 == bs[0];
      forall i: nat ensures Bit(n, i) == (i < |bs| && bs[i] == 1) {
        if i > 0 { assert Bit(n, i) == Bit(h, i - 1); }
      }
    }
  }

  /** `bs + carry`, the carry out of the top dropped. */
  function Bumped(bs: seq<nat>, carry: nat): (r: seq<nat>)
    ensures |r| == |bs|
  {
    if bs == [] then [] else [(bs[0] + carry) % 2] + Bumped(bs[1..], (bs[0] + carry) / 2)
  }

  lemma {:induction false} BumpedValue(bs: seq<nat>, carry: nat) returns (out: nat)
    requires IsBits(bs) && carry <= 1
    ensures IsBits(Bumped(bs, carry)) && out <= 1
    ensures LEValue(Bumped(bs, carry), 2) + out * Pow2(|bs|) == LEValue(bs, 2) + carry
  {
    if bs == [] {
      out := carry;
    } else {
      var c := (bs[0] + carry) / 2;
      out := BumpedValue(bs[1..], c);
      assert Bumped(bs, carry)[1..] == Bumped(bs[1..], c);
      BumpSum(LEValue(Bumped(bs[1..], c), 2), out, Pow2(|bs| - 1), LEValue(bs[1..], 2), (bs[0] + carry) % 2, c, bs[0] + carry);
    }
  }

  lemma BumpSum(r: nat, out: nat, p: nat, l: nat, digit: nat, c: nat, sum: nat)
    requires r + out * p == l + c && digit + 2 * c == sum
    ensures digit + 2 * r + out * (2 * p) == sum + 2 * l
  {}

  lemma {:induction false} BumpedByZero(bs: seq<nat>)
    requires IsBits(bs)
    ensures Bumped(bs, 0) == bs
  {
    if bs != [] { BumpedByZero(bs[1..]); }
  }

  lemma {:induction false} InvertedValue(bs: seq<nat>, inv: seq<nat>)
    requires IsBits(bs) && |inv| == |bs| && forall i :: 0 <= i < |bs| ==> inv[i] == 1 - bs[i]
    ensures LEValue(inv, 2) == Pow2(|bs|) - 1 - LEValue(bs, 2)
  {
    if bs != [] { InvertedValue(bs[1..], inv[1..]); }
  }

  /** Two's complement of the magnitude bits: invert, then add one until the carry dies. */
  method NegateBits(bs: seq<nat>) returns (out: seq<nat>)
    requires IsBits(bs)
    ensures |out| == |bs| && IsBits(out)
    ensures LEValue(bs, 2) > 0 ==> LEValue(out, 2) == Pow2(|bs|) - LEValue(bs, 2)
  {
    hide LEValue, Pow2, Bumped, IsBits;
    var inv := Inverted(bs);
    out := inv;
    var carry := 1;
    var i := 0;
    while i < |bs|
      invariant 0 <= i <= |bs| == |out| && carry <= 1
      invariant out[i..] == inv[i..] && IsBits(inv)
      invariant out[..i] + Bumped(inv[i..], carry) == Bumped(inv, 1)
    {
      var sum := out[i] + carry;
      BumpStep(inv, out, i, carry);
      out := out[i := sum % 2];
      carry := sum / 2;
      i := i + 1;
      if carry == 0 { break; }
    }
    BumpEnd(inv, out, i, carry);
    NegatedValue(bs);
  }

  function Inverted(bs: seq<nat>): (inv: seq<nat>)
    requires IsBits(bs)
    ensures |inv| == |bs| && IsBits(inv)
  {
    seq(|bs|, i requires 0 <= i < |bs| => 1 - bs[i])
  }

  lemma BumpStep(inv: seq<nat>, out: seq<nat>, i: nat, carry: nat)
    requires i < |inv| == |out| && IsBits(inv) && carry <= 1
    requires out[i..] == inv[i..] && out[..i] + Bumped(inv[i..], carry) == Bumped(inv, 1)
    ensures out[i] == inv[i] <= 1
    ensures var sum := out[i] + carry;
      out[i := sum % 2][..i + 1] + Bumped(inv[i + 1..], sum / 2) == Bumped(inv, 1)
    ensures var sum := out[i] + carry; out[i := sum % 2][i + 1..] == inv[i + 1..]
  {
    assert out[i] == out[i..][0] == inv[i..][0] == inv[i];
    var sum := out[i] + carry;
    assert inv[i..][1..] == inv[i + 1..];
    assert out[i := sum % 2][..i + 1] == out[..i] + [sum % 2];
    forall j | i + 1 <= j < |inv| ensures out[j] == inv[j] { assert out[i..][j - i] == inv[i..][j - i]; }
  }

  lemma BumpEnd(inv: seq<nat>, out: seq<nat>, i: nat, carry: nat)
    requires i <= |inv| == |out| && IsBits(inv) && (i == |inv| || carry == 0)
    requires out[i..] == inv[i..] && out[..i] + Bumped(inv[i..], carry) == Bumped(inv, 1)
    ensures out == Bumped(inv, 1)
  {
    if carry == 0 { BumpedByZero(inv[i..]); }
    assert out == out[..i] + out[i..];
  }

  lemma NegatedValue(bs: seq<nat>)
    requires IsBits(bs)
    ensures IsBits(Bumped(Inverted(bs), 1))
    ensures LEValue(bs, 2) > 0 ==> LEValue(Bumped(Inverted(bs), 1), 2) == Pow2(|bs|) - LEValue(bs, 2)
  {
    hide LEValue, Pow2, Bumped;
    var inv := Inverted(bs);
    InvertedValue(bs, inv);
    BitsValue(bs);
    var lost := BumpedValue(inv, 1);
    BitsValue(Bumped(inv, 1));
    if LEValue(bs, 2) > 0 {
      NoOverflow(LEValue(Bumped(inv, 1), 2), lost, Pow2(|bs|), Pow2(|bs|) - LEValue(bs, 2));
    }
  }

  lemma NoOverflow(low: nat, c: nat, p: nat, x: nat)
    requires low + c * p == x < p
    ensures low == x
  {}

  /** `digits = digits * 2 + bit` from the most significant bit down. */
  method ToDigits(mag: seq<nat>) returns (ds: seq<nat>)
    requires IsBits(mag)
    ensures Decimal(ds) && LEValue(ds, 10) == LEValue(mag, 2)
  {
    hide LEValue;
    ds := [0];
    StartDigits(mag);
    for i := |mag| downto 0
      invariant Decimal(ds) && LEValue(ds, 10) == LEValue(mag[i..], 2)
    {
      HornerBit(mag, i);
      ds := Double(ds, mag[i]);
    }
    assert mag[0..] == mag;
  }

  lemma StartDigits(mag: seq<nat>)
    ensures LEValue([0], 10) == LEValue(mag[|mag|..], 2)
  {
    assert [0][1..] == [];
  }

  lemma HornerBit(mag: seq<nat>, i: nat)
    requires i < |mag|
    ensures LEValue(mag[i..], 2) == 2 * LEValue(mag[i + 1..], 2) + mag[i]
  {
    assert mag[i..][1..] == mag[i + 1..];
  }

  /* ---- to_dec_string ---- */

  /** `x`, `z`, or a capital when unknown bits mix with anything else. */
  ghost function UnknownChar(v: Value): char {
    if !Somewhere(v, Zero) && !Somewhere(v, One) && !Somewhere(v, Z) then 'x'
    else if !Somewhere(v, Zero) && !Somewhere(v, One) && !Somewhere(v, X) then 'z'
    else if Somewhere(v, X) then 'X' else 'Z'
  }

  ghost predicate AllBitsAre(v: Value, b: LogicBit) { forall i: nat :: i < v.width ==> GetBit(v, i) == b }

  /** Lower case when every bit is that letter, upper case when it is among others, x before z. */
  lemma {:induction false} UnknownLetter(v: Value)
    requires AnyUnknown(v)
    ensures UnknownChar(v) == 'x' <==> AllBitsAre(v, X)
    ensures UnknownChar(v) == 'z' <==> AllBitsAre(v, Z)
    ensures UnknownChar(v) == 'X' <==> Somewhere(v, X) && !AllBitsAre(v, X)
    ensures UnknownChar(v) == 'Z' <==> !Somewhere(v, X) && !AllBitsAre(v, Z)
  {
    hide GetBit;
    forall i: nat ensures GetBit(v, i) == Zero || GetBit(v, i) == One || GetBit(v, i) == X || GetBit(v, i) == Z { FourWays(GetBit(v, i)); }
  }

  lemma FourWays(b: LogicBit)
    ensures b == Zero || b == One || b == X || b == Z
  {}

  method UnknownText(v: Value) returns (s: string)
    requires Valid(v) && AnyUnknown(v)
    ensures s == [UnknownChar(v)]
  {
    hide GetBit, Valid;
    var nx, nz := 0, 0;
    for i := 0 to v.width
      invariant nx <= i && nz <= i && nx + nz <= i
      invariant nx == i <==> forall k: nat :: k < i ==> GetBit(v, k) == X
      invariant nz == i <==> forall k: nat :: k < i ==> GetBit(v, k) == Z
      invariant nx > 0 <==> exists k: nat :: k < i && GetBit(v, k) == X
    {
      var b := GetBit(v, i);
      if b == X { nx := nx + 1; } else if b == Z { nz := nz + 1; }
    }
    var ch := if nx == v.width then 'x' else if nz == v.width then 'z' else if nx > 0 then 'X' else 'Z';
    s := [ch];
  }

  /** The value bits of a wide known value, least significant first. */
  lemma MagnitudeIs(v: Value, mag: seq<nat>)
    requires Known(v) && |mag| == v.width
    requires forall i :: 0 <= i < v.width ==> mag[i] == if GetBit(v, i) == One then 1 else 0
    ensures LEValue(mag, 2) == ValPlane(v)
  {
    hide Bit, VBit, XBit, Pow2, ValPlane, LEValue;
    BitsValue(mag);
    KnownBits(v);
    SameBits(LEValue(mag, 2), ValPlane(v), v.width);
  }

  lemma KnownBits(v: Value)
    requires Known(v)
    ensures forall i: nat :: i < v.width ==> (GetBit(v, i) == One <==> Bit(ValPlane(v), i))
  {
    hide Bit, VBit, XBit;
    BitViews(v);
    BitsOfZero();
  }

  method WideText(v: Value) returns (s: string)
    requires Known(v) && v.width > 64
    ensures s == Printed(IntOf(v, v.signed))
  {
    hide GetBit, LEValue, Digits, ValPlane, Pow2, Bit;
    KnownBits(v);
    BoundOf(v);
    var neg := v.signed && GetBit(v, v.width - 1) == One;
    var mag := seq(v.width, i requires 0 <= i < v.width => if GetBit(v, i) == One then 1 else 0);
    MagnitudeIs(v, mag);
    if neg {
      NonzeroTop(v);
      mag := NegateBits(mag);
    }
    var ds := ToDigits(mag);
    ShownCanonical(ds);
    s := if neg then "-" else "";
    s := s + Shown(ds);
  }

  lemma BoundOf(v: Value)
    requires Valid(v)
    ensures ValPlane(v) < Pow2(v.width)
  {}

  lemma NonzeroTop(v: Value)
    requires v.width > 0 && Bit(ValPlane(v), v.width - 1)
    ensures ValPlane(v) > 0
  {
    ZeroBit(v.width - 1);
  }

  /** `to_dec_string`: host formatting up to 64 bits, schoolbook base 10 above. */
  method ToDecString(v: Value) returns (s: string)
    requires Valid(v)
    ensures s == if AnyUnknown(v) then [UnknownChar(v)] else Printed(IntOf(v, v.signed))
  {
    hide HasXz, AnyUnknown, UnknownChar, Printed, IntOf, ToI64, ToU64;
    KnownMeans(v);
    if HasXz(v) {
      s := UnknownText(v);
      return;
    }
    if v.width <= 64 {
      if v.signed {
        ToI64Value(v);
        return Printed(ToI64(v));
      }
      NarrowUnsigned(v);
      return Printed(ToU64(v));
    }
    s := WideText(v);
  }

  /* ---- round trips ---- */

  lemma FirstDigit(s: string)
    requires |s| > 0 && AllDigits(s)
    ensures StripPlus(s) == s && !Malformed(s)
  {}

  /** Parsing the print of a known unsigned value gives the value back. */
  method PrintThenParse(v: Value) returns (r: Value)
    requires Known(v) && !v.signed
    ensures r == v
  {
    hide AnyUnknown, Digits, Bit, VBit, XBit, Pow2, ValPlane, AllUnknown;
    KnownMeans(v);
    var s := ToDecString(v);
    BoundOf(v);
    UnsignedInt(v);
    DigitsValue(ValPlane(v));
    FirstDigit(s);
    r := FromDecimal(s, v.width);
    SmallMod(ValPlane(v), Pow2(v.width));
    BitViews(v);
    BitViews(r);
    SameValue(r, v);
  }

  /** Printing a parsed literal gives the canonical text of its value modulo 2^width. */
  method ParseThenPrint(text: string, width: nat) returns (s: string)
    requires !Malformed(text)
    ensures s == Digits(DecValue(StripPlus(text)) % Pow2(CapWidth(width)))
  {
    hide AnyUnknown, Digits, Bit, Pow2, ValPlane, AllUnknown;
    var v := FromDecimal(text, width);
    KnownMeans(v);
    UnsignedInt(v);
    s := ToDecString(v);
  }
}
