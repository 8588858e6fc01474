/** Greatest common divisors, and the prime factors of 2^32 - 1. */
module Divisors {

  predicate Divides(d: nat, n: nat)
    requires d > 0
  {
    n % d == 0
  }

  /** Division with remainder is unique. */
  lemma Remainder(x: nat, m: nat, q: nat, r: nat)
    requires x == q * m + r && r < m
    ensures x % m == r && x / m == q
  {
    var d := x / m;
    assert d > q ==> d * m >= (q + 1) * m;
    assert d < q ==> d * m <= (q - 1) * m;
  }

  lemma Quotient(n: nat, d: nat, q: nat)
    requires d > 0 && n == d * q
    ensures Divides(d, n) && n / d == q
  {
    Remainder(n, d, q, 0);
  }

  function Gcd(a: nat, b: nat): (g: nat)
    ensures a > 0 || b > 0 ==> g > 0
    decreases b, a
  {
    if b == 0 then a else Gcd(b, a % b)
  }

  /** The greatest common divisor divides both and is a combination of them. */
  lemma {:induction false} Bezout(a: nat, b: nat) returns (u: int, v: int)
    requires a > 0 || b > 0
    ensures u * a + v * b == Gcd(a, b)
    ensures Divides(Gcd(a, b), a) && Divides(Gcd(a, b), b)
    decreases b
  {
    var g := Gcd(a, b);
    if b == 0 {
      u, v := 1, 0;
    } else {
      var s, t := Bezout(b, a % b);
      u, v := t, s - t * (a / b);
      Combine(a, b, s, t);
      Multiple(g, a, b);
    }
  }

  lemma Combine(a: nat, b: nat, s: int, t: int)
    requires b > 0
    ensures t * a + (s - t * (a / b)) * b == s * b + t * (a % b)
  {
    assert a == b * (a / b) + a % b;
    assert t * a == t * (b * (a / b)) + t * (a % b);
    assert (s - t * (a / b)) * b == s * b - t * (a / b) * b;
    assert t * (b * (a / b)) == t * (a / b) * b;
  }

  lemma Multiple(g: nat, a: nat, b: nat)
    requires g > 0 && b > 0 && Divides(g, b) && Divides(g, a % b)
    ensures Divides(g, a)
  {
    var p, q, k := b / g, (a % b) / g, a / b;
    Factor(g * p, k, g, p);
    assert a == g * (p * k) + g * q;
    Distribute(g, p * k, q);
    Quotient(a, g, p * k + q);
  }

  lemma Factor(x: int, k: int, g: int, p: int)
    requires x == g * p
    ensures x * k == g * (p * k)
  {
  }

  lemma Distribute(g: int, x: int, y: int)
    ensures g * x + g * y == g * (x + y)
  {
  }

  predicate Prime(p: nat) { p > 1 && forall k :: 1 < k < p ==> p % k != 0 }

  /** A prime that does not divide `q` can be dropped from a product that `q` divides. */
  lemma Euclid(q: nat, p: nat, r: nat, t: nat)
    requires q > 0 && Prime(p) && !Divides(p, q) && p * r == q * t
    ensures Divides(q, r)
  {
    var u, v := Bezout(q, p);
    PrimeGcd(q, p);
    var k := u * r + v * t;
    CombineProduct(u, q, v, p, r, t);
    NonNegative(q, k);
    Quotient(r, q, k);
  }

  lemma CombineProduct(u: int, q: int, v: int, p: int, r: int, t: int)
    requires u * q + v * p == 1 && p * r == q * t
    ensures r == q * (u * r + v * t)
  {
    Factor(u * q, r, q, u);
    Factor(v * p, r, v, p);
    Factor(q * t, v, q, t);
    assert (u * q + v * p) * r == u * q * r + v * p * r;
    assert v * (p * r) == (q * t) * v;
    Distribute(q, u * r, t * v);
  }

  lemma NonNegative(q: nat, k: int)
    requires q > 0 && q * k >= 0
    ensures k >= 0
  {
    assert k < 0 ==> q * k < 0;
  }

  lemma DivisorAtMost(d: nat, n: nat)
    requires d > 0 && n > 0 && Divides(d, n)
    ensures d <= n
  {
    assert n == d * (n / d);
  }

  lemma PrimeGcd(q: nat, p: nat)
    requires q > 0 && Prime(p) && !Divides(p, q)
    ensures Gcd(q, p) == 1
  {
    var g := Gcd(q, p);
    var _, _ := Bezout(q, p);
    DivisorAtMost(g, p);
  }

  // ----- five primes

  /** None of the odd numbers from `2 * lo + 1` to `2 * hi - 1` divides `p`, found by halving the range. */
  predicate NoDivisor(p: nat, lo: nat, hi: nat)
    requires 0 < lo < hi
    decreases hi - lo, p, lo
  {
    if hi - lo == 1 then p % (2 * lo + 1) != 0
    else NoDivisor(p, lo, (lo + hi) / 2) && NoDivisor(p, (lo + hi) / 2, hi)
  }

  lemma {:induction false} NoDivisorMeans(p: nat, lo: nat, hi: nat, i: nat)
    requires 0 < lo < hi && NoDivisor(p, lo, hi) && lo <= i < hi
    ensures p % (2 * i + 1) != 0
    decreases hi - lo
  {
    if hi - lo > 1 {
      var mid := (lo + hi) / 2;
      if i < mid { NoDivisorMeans(p, lo, mid, i); } else { NoDivisorMeans(p, mid, hi, i); }
    }
  }

  lemma SmallDivisor(p: nat, hi: nat, k: nat)
    requires 1 < hi && p % 2 == 1 && NoDivisor(p, 1, hi) && 1 < k < 2 * hi
    ensures p % k != 0
  {
    hide NoDivisor;
    if k % 2 == 1 {
      NoDivisorMeans(p, 1, hi, k / 2);
    } else if p % k == 0 {
      EvenMultiple(p, k);
      assert false;
    }
  }

  lemma EvenMultiple(p: nat, k: nat)
    requires k > 0 && k % 2 == 0 && p % k == 0
    ensures p % 2 == 0
  {
    var l := p / k;
    Factor(2 * (k / 2), l, 2, k / 2);
    assert p == 2 * ((k / 2) * l);
  }

  lemma LargeDivisor(p: nat, hi: nat, k: nat)
    requires 1 < hi && p % 2 == 1 && NoDivisor(p, 1, hi) && 2 * hi <= k < p < 2 * hi * (2 * hi)
    ensures p % k != 0
  {
    hide NoDivisor;
    if p % k == 0 {
      var l := p / k;
      assert p == k * l;
      Quotient(p, l, k) by { OtherFactor(p, k, l, 2 * hi); }
      OtherFactor(p, k, l, 2 * hi);
      SmallDivisor(p, hi, l);
    }
  }

  lemma OtherFactor(p: nat, k: nat, l: nat, root: nat)
    requires p == k * l && root <= k < p < root * root
    ensures 1 < l < root
  {
    assert l >= root ==> k * l >= root * root by {
      if l >= root { Product(k, l, root); }
    }
  }

  lemma Product(k: nat, l: nat, root: nat)
    requires k >= root && l >= root
    ensures k * l >= root * root
  {
    assert k * l >= root * l;
  }

  /** Dividing by the odd numbers up to the root is enough. */
  lemma TrialDivision(p: nat, hi: nat)
    requires 1 < hi && p % 2 == 1 && 2 * hi <= p < 2 * hi * (2 * hi) && NoDivisor(p, 1, hi)
    ensures Prime(p)
  {
    hide NoDivisor;
    forall k | 1 < k < p ensures p % k != 0 {
      if k < 2 * hi { SmallDivisor(p, hi, k); } else { LargeDivisor(p, hi, k); }
    }
  }

  lemma FermatPrimes()
    ensures Prime(3) && Prime(5) && Prime(17) && Prime(257) && Prime(65537)
  {
    hide Prime, NoDivisor;
    SmallPrimes();
    NoDivisorOf257();
    TrialDivision(257, 9);
    NoDivisorOf65537();
    TrialDivision(65537, 129);
  }

  lemma SmallPrimes()
    ensures Prime(3) && Prime(5) && Prime(17)
  {
    assert NoDivisor(17, 1, 3);
    TrialDivision(17, 3);
  }

  lemma NoDivisorOf257() ensures NoDivisor(257, 1, 9) {}

  lemma NoDivisorFrom3() ensures NoDivisor(65537, 1, 17) {}
  lemma NoDivisorFrom35() ensures NoDivisor(65537, 17, 33) {}
  lemma NoDivisorFrom67() ensures NoDivisor(65537, 33, 49) {}
  lemma NoDivisorFrom99() ensures NoDivisor(65537, 49, 65) {}
  lemma NoDivisorFrom131() ensures NoDivisor(65537, 65, 81) {}
  lemma NoDivisorFrom163() ensures NoDivisor(65537, 81, 97) {}
  lemma NoDivisorFrom195() ensures NoDivisor(65537, 97, 113) {}
  lemma NoDivisorFrom227() ensures NoDivisor(65537, 113, 129) {}

  lemma Join(p: nat, lo: nat, mid: nat, hi: nat)
    requires 0 < lo < mid < hi && mid == (lo + hi) / 2 && NoDivisor(p, lo, mid) && NoDivisor(p, mid, hi)
    ensures NoDivisor(p, lo, hi)
  {
  }

  lemma NoDivisorOf65537()
    ensures NoDivisor(65537, 1, 129)
  {
    hide NoDivisor;
    NoDivisorFrom3(); NoDivisorFrom35(); NoDivisorFrom67(); NoDivisorFrom99();
    NoDivisorFrom131(); NoDivisorFrom163(); NoDivisorFrom195(); NoDivisorFrom227();
    Join(65537, 1, 17, 33); Join(65537, 33, 49, 65); Join(65537, 65, 81, 97); Join(65537, 97, 113, 129);
    Join(65537, 1, 33, 65); Join(65537, 65, 97, 129);
    Join(65537, 1, 65, 129);
  }
}
