/** Natural numbers as bit strings, and the `u64` operators over them. */
module WordBits {

  const BASE: nat := 0x1_0000_0000_0000_0000

  /** A `u64`. */
  type Word = w: nat | w < BASE

  function Pow2(n: nat): (p: nat)
    ensures p >= 1
  {
    if n == 0 then 1 else 2 * Pow2(n - 1)
  }

  /** Bit `i` of `n`, bit 0 being the least significant. */
  predicate Bit(n: nat, i: nat)
    decreases i
  {
    if i == 0 then n % 2 == 1 else Bit(n / 2, i - 1)
  }

  /* The contracts below give every operator by the bits of its result. */

  function And(a: nat, b: nat): (r: nat)
    ensures r <= a && r <= b
    ensures forall i: nat :: Bit(r, i) == (Bit(a, i) && Bit(b, i))
    decreases a
  {
    if a == 0 || b == 0 then
      BitsOfZero();
      0
    else
      var r := (if a % 2 == 1 && b % 2 == 1 then 1 else 0) + 2 * And(a / 2, b / 2);
      assert r / 2 == And(a / 2, b / 2);
      r
  }

  function Or(a: nat, b: nat): (r: nat)
    ensures r <= a + b
    ensures forall i: nat :: Bit(r, i) == (Bit(a, i) || Bit(b, i))
    decreases a + b
  {
    if a == 0 && b == 0 then
      BitsOfZero();
      0
    else
      var r := (if a % 2 == 1 || b % 2 == 1 then 1 else 0) + 2 * Or(a / 2, b / 2);
      assert r / 2 == Or(a / 2, b / 2);
      r
  }

  function Xor(a: nat, b: nat): (r: nat)
    ensures r <= a + b
    ensures forall i: nat :: Bit(r, i) == (Bit(a, i) != Bit(b, i))
    decreases a + b
  {
    if a == 0 && b == 0 then
      BitsOfZero();
      0
    else
      var r := (if a % 2 != b % 2 then 1 else 0) + 2 * Xor(a / 2, b / 2);
      assert r / 2 == Xor(a / 2, b / 2);
      r
  }

  /** All ones below bit `n`: `(1 << n) - 1`, and `u64::MAX` at 64. */
  function Ones(n: nat): (r: nat)
    ensures r == Pow2(n) - 1
    ensures forall i: nat :: Bit(r, i) == (i < n)
  {
    if n == 0 then
      BitsOfZero();
      0
    else
      var r := 1 + 2 * Ones(n - 1);
      assert r / 2 == Ones(n - 1);
      r
  }

  lemma {:induction false} BitsOfZero()
    ensures forall i: nat :: !Bit(0, i)
  {
    forall i: nat ensures !Bit(0, i) { ZeroBit(i); }
  }

  lemma {:induction false} ZeroBit(i: nat)
    ensures !Bit(0, i)
  {
    if i > 0 { ZeroBit(i - 1); }
  }

  /* ---- shifts, truncation and complement ---- */

  /** `n >> s`. */
  function Shr(n: nat, s: nat): (r: nat)
    ensures r <= n
    ensures forall i: nat :: Bit(r, i) == Bit(n, i + s)
    decreases s
  {
    if s == 0 then n else Shr(n / 2, s - 1)
  }

  /** `n << s` before truncation. */
  function Shl(n: nat, s: nat): (r: nat)
    ensures r == n * Pow2(s)
    ensures forall i: nat :: Bit(r, i) == (i >= s && Bit(n, i - s))
    decreases s
  {
    if s == 0 then n else
      var h := Shl(n, s - 1);
      var r := 2 * h;
      assert r / 2 == h && r % 2 == 0;
      assert r == n * Pow2(s) by { Assoc(2, n, Pow2(s - 1)); Assoc(n, 2, Pow2(s - 1)); }
      r
  }

  /** The low `k` bits of `n`. */
  function Low(n: nat, k: nat): (r: nat)
    ensures r <= n && r < Pow2(k)
    ensures forall i: nat :: Bit(r, i) == (i < k && Bit(n, i))
    decreases k
  {
    if k == 0 then
      BitsOfZero();
      0
    else
      var h := Low(n / 2, k - 1);
      var r := n % 2 + 2 * h;
      assert r / 2 == h && r % 2 == n % 2;
      r
  }

  /** Truncation and shift are the remainder and quotient by a power of two. */
  lemma {:induction false} Split(n: nat, k: nat)
    ensures n == Low(n, k) + Pow2(k) * Shr(n, k)
    ensures Low(n, k) == n % Pow2(k) && Shr(n, k) == n / Pow2(k)
    decreases k
  {
    if k > 0 {
      var l, h := Low(n / 2, k - 1), Shr(n / 2, k - 1);
      Split(n / 2, k - 1);
      assert n == n % 2 + 2 * (n / 2);
      Assoc(2, Pow2(k - 1), h);
    } else {
      assert Pow2(0) * n == n;
    }
    DivUnique(n, Pow2(k), Shr(n, k), Low(n, k));
  }

  /** Equal bits below a common bound make equal numbers. */
  lemma {:induction false} SameBits(a: nat, b: nat, k: nat)
    requires a < Pow2(k) && b < Pow2(k)
    requires forall i: nat :: i < k ==> Bit(a, i) == Bit(b, i)
    ensures a == b
    decreases k
  {
    if k > 0 {
      assert Bit(a, 0) == Bit(b, 0);
      forall i: nat | i < k - 1 ensures Bit(a / 2, i) == Bit(b / 2, i) {
        assert Bit(a, i + 1) == Bit(b, i + 1);
      }
      SameBits(a / 2, b / 2, k - 1);
    }
  }

  lemma {:induction false} HighBitsClear(n: nat, k: nat)
    requires n < Pow2(k)
    ensures forall i: nat :: i >= k ==> !Bit(n, i)
  {
    Split(n, k);
    assert Low(n, k) == n by { SmallMod(n, Pow2(k)); }
  }

  lemma SmallMod(n: nat, d: nat)
    requires n < d
    ensures n % d == n && n / d == 0
  {
    DivUnique(n, d, 0, n);
  }

  lemma {:induction false} BoundFromBits(n: nat, k: nat)
    requires forall i: nat :: i >= k ==> !Bit(n, i)
    ensures n < Pow2(k)
    decreases n
  {
    if n == 0 {
    } else if k == 0 {
      assert !Bit(n, 0);
      forall i: nat ensures !Bit(n / 2, i) { assert !Bit(n, i + 1); }
      BoundFromBits(n / 2, 0);
    } else {
      forall i: nat | i >= k - 1 ensures !Bit(n / 2, i) { assert !Bit(n, i + 1); }
      BoundFromBits(n / 2, k - 1);
    }
  }

  lemma {:induction false} Pow2Add(a: nat, b: nat)
    ensures Pow2(a + b) == Pow2(a) * Pow2(b)
  {
    if a > 0 {
      Pow2Add(a - 1, b);
      Assoc(2, Pow2(a - 1), Pow2(b));
    }
  }

  lemma {:induction false} Pow2Mono(a: nat, b: nat)
    requires a <= b
    ensures Pow2(a) <= Pow2(b)
    ensures a < b ==> 2 * Pow2(a) <= Pow2(b)
    ensures b > 0 ==> Pow2(b) >= 2
  {
    if a < b { Pow2Mono(a, b - 1); }
  }

  lemma BaseIsPow2()
    ensures BASE == Pow2(64)
  {
    hide Pow2;
    PowersTo16();
    Pow2Add(16, 16);
    Pow2Add(32, 32);
  }

  lemma PowersTo16()
    ensures Pow2(16) == 0x1_0000
  {
    assert Pow2(4) == 16;
    hide Pow2;
    Pow2Add(4, 4);
    Pow2Add(8, 8);
  }

  /** An `or` of numbers without a common bit is their sum. */
  lemma {:induction false} OrDisjoint(a: nat, b: nat)
    requires forall i: nat :: !(Bit(a, i) && Bit(b, i))
    ensures Or(a, b) == a + b
    decreases a + b
  {
    if a != 0 || b != 0 {
      assert !(Bit(a, 0) && Bit(b, 0));
      forall i: nat ensures !(Bit(a / 2, i) && Bit(b / 2, i)) {
        assert Bit(a, i + 1) == Bit(a / 2, i) && Bit(b, i + 1) == Bit(b / 2, i);
      }
      OrDisjoint(a / 2, b / 2);
    }
  }

  /* ---- `u64` operators ---- */

  /** The low `k` bits of `!a`. */
  function Flip(a: nat, k: nat): (r: nat)
    requires a < Pow2(k)
    ensures r == Pow2(k) - 1 - a
    ensures forall i: nat :: Bit(r, i) == (i < k && !Bit(a, i))
    decreases k
  {
    if k == 0 then
      BitsOfZero();
      0
    else
      var h := Flip(a / 2, k - 1);
      var r := 1 - a % 2 + 2 * h;
      assert r / 2 == h && r % 2 == 1 - a % 2;
      r
  }

  function Not64(a: Word): (r: Word)
    ensures forall i: nat :: Bit(r, i) == (i < 64 && !Bit(a, i))
    ensures r == BASE - 1 - a
  {
    BaseIsPow2();
    Flip(a, 64)
  }

  function And64(a: Word, b: Word): (r: Word)
    ensures forall i: nat :: Bit(r, i) == (Bit(a, i) && Bit(b, i))
  {
    And(a, b)
  }

  function Or64(a: Word, b: Word): (r: Word)
    ensures forall i: nat :: Bit(r, i) == (Bit(a, i) || Bit(b, i))
  {
    WordHighBits(a);
    WordHighBits(b);
    FitsWord(Or(a, b));
    Or(a, b)
  }

  function Xor64(a: Word, b: Word): (r: Word)
    ensures forall i: nat :: Bit(r, i) == (Bit(a, i) != Bit(b, i))
  {
    WordHighBits(a);
    WordHighBits(b);
    FitsWord(Xor(a, b));
    Xor(a, b)
  }

  /** `a << s`, which drops the bits pushed past 63. */
  function Shl64(a: Word, s: nat): (r: Word)
    requires s < 64
    ensures forall i: nat :: Bit(r, i) == (s <= i < 64 && Bit(a, i - s))
  {
    BaseIsPow2();
    Low(Shl(a, s), 64)
  }

  /** `(1 << n) - 1`, saturating to `u64::MAX`. */
  function Mask(n: nat): (r: Word)
    ensures forall i: nat :: Bit(r, i) == (i < n && i < 64)
    ensures n <= 64 ==> r == Pow2(n) - 1
  {
    BaseIsPow2();
    Pow2Mono(if n < 64 then n else 64, 64);
    Ones(if n < 64 then n else 64)
  }

  lemma WordHighBits(w: Word)
    ensures forall i: nat :: i >= 64 ==> !Bit(w, i)
  {
    BaseIsPow2();
    HighBitsClear(w, 64);
  }

  lemma FitsWord(n: nat)
    requires forall i: nat :: i >= 64 ==> !Bit(n, i)
    ensures n < BASE
  {
    BaseIsPow2();
    BoundFromBits(n, 64);
  }

  /** The bits of `lo + hi * 2^k` when `lo` stays below `2^k`. */
  lemma {:induction false} BitsOfSum(lo: nat, hi: nat, k: nat)
    requires lo < Pow2(k)
    ensures forall i: nat :: Bit(lo + hi * Pow2(k), i) == if i < k then Bit(lo, i) else Bit(hi, i - k)
    decreases k
  {
    var n := lo + hi * Pow2(k);
    if k > 0 {
      var m := lo / 2 + hi * Pow2(k - 1);
      BitsOfSum(lo / 2, hi, k - 1);
      assert hi * Pow2(k) == 2 * (hi * Pow2(k - 1));
      assert n / 2 == m && n % 2 == lo % 2;
      forall i: nat ensures Bit(n, i) == if i < k then Bit(lo, i) else Bit(hi, i - k) {
        if i > 0 { assert Bit(n, i) == Bit(m, i - 1) && Bit(lo, i) == Bit(lo / 2, i - 1); }
      }
    } else {
      assert n == hi;
    }
  }

  lemma BitsOfSumAt(n: nat, lo: nat, hi: nat, k: nat)
    requires lo < Pow2(k) && n == lo + hi * Pow2(k)
    ensures forall i: nat :: Bit(n, i) == if i < k then Bit(lo, i) else Bit(hi, i - k)
  {
    BitsOfSum(lo, hi, k);
  }

  lemma Distribute(a: int, b: int, c: int)
    ensures a * (b + c) == a * b + a * c
  {}

  lemma Assoc(a: int, b: int, c: int)
    ensures a * (b * c) == (a * b) * c
  {}

  lemma MulMono(a: nat, x: int, y: int)
    requires x <= y
    ensures a * x <= a * y
  {}

  /** Quotient and remainder are determined by the division equation. */
  lemma DivUnique(n: int, d: int, q: int, r: int)
    requires d > 0 && n == d * q + r && 0 <= r < d
    ensures n / d == q && n % d == r
  {
    var q', r' := n / d, n % d;
    assert n == d * q' + r';
    assert d * (q - q') == r' - r by { Distribute(d, q, -q'); }
    if q > q' { MulMono(d, 1, q - q'); }
    if q < q' { MulMono(d, q - q', -1); }
  }
}
