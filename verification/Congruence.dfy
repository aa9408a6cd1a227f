/** Integers equal up to a multiple of a power of two. */
module Congruence {
  import opened WordBits

  ghost predicate Cong(a: int, b: int, w: nat) {
    a % Pow2(w) == b % Pow2(w)
  }

  lemma CongFromMultiple(a: int, b: int, k: int, w: nat)
    requires a == b + k * Pow2(w)
    ensures Cong(a, b, w)
  {
    hide Pow2;
    var p := Pow2(w);
    var q, r := b / p, b % p;
    Distribute(p, q, k);
    DivUnique(a, p, q + k, r);
  }

  lemma CongWitness(a: int, b: int, w: nat) returns (k: int)
    requires Cong(a, b, w)
    ensures a == b + k * Pow2(w)
  {
    hide Pow2;
    var p := Pow2(w);
    k := a / p - b / p;
    Distribute(p, a / p, -(b / p));
  }

  lemma MultiplesAdd(j: int, k: int, p: int)
    ensures (j + k) * p == j * p + k * p && (j - k) * p == j * p - k * p
  {}

  lemma CongAdd(a: int, a': int, b: int, b': int, w: nat)
    requires Cong(a, a', w) && Cong(b, b', w)
    ensures Cong(a + b, a' + b', w) && Cong(a - b, a' - b', w)
  {
    var j := CongWitness(a, a', w);
    var k := CongWitness(b, b', w);
    hide Pow2, Cong;
    MultiplesAdd(j, k, Pow2(w));
    CongFromMultiple(a + b, a' + b', j + k, w);
    CongFromMultiple(a - b, a' - b', j - k, w);
  }

  lemma CongMul(a: int, a': int, b: int, b': int, w: nat)
    requires Cong(a, a', w) && Cong(b, b', w)
    ensures Cong(a * b, a' * b', w)
  {
    var j := CongWitness(a, a', w);
    var k := CongWitness(b, b', w);
    ProductMultiple(a, a', b, b', j, k, Pow2(w));
    CongFromMultiple(a * b, a' * b', j * b + a' * k, w);
  }

  lemma ProductMultiple(a: int, a': int, b: int, b': int, j: int, k: int, p: int)
    requires a == a' + j * p && b == b' + k * p
    ensures a * b == a' * b' + (j * b + a' * k) * p
  {
    calc {
      a * b;
      (a' + j * p) * b;
      a' * b + j * p * b;
      { Distribute(a', b', k * p); }
      a' * b' + a' * (k * p) + j * p * b;
    }
  }

  lemma CongWeaken(a: int, b: int, m: nat, w: nat)
    requires Cong(a, b, m) && w <= m
    ensures Cong(a, b, w)
  {
    var k := CongWitness(a, b, m);
    Pow2Add(m - w, w);
    Assoc(k, Pow2(m - w), Pow2(w));
    CongFromMultiple(a, b, k * Pow2(m - w), w);
  }

  /** Reducing modulo a larger power first changes nothing. */
  lemma Reduced(x: int, y: int, m: nat, w: nat)
    requires Cong(x, y, w) && w <= m
    ensures (x % Pow2(m)) % Pow2(w) == y % Pow2(w)
  {
    Idempotent(x, m);
    CongWeaken(x % Pow2(m), x, m, w);
  }

  lemma Idempotent(x: int, m: nat)
    ensures Cong(x % Pow2(m), x, m)
  {
    hide Pow2;
    var p := Pow2(m);
    DivUnique(x, p, x / p, x % p);
    SmallMod(x % p, p);
  }
}
