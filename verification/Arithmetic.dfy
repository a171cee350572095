/** Multiplication, division and remainders by a variable modulus. */
module Arithmetic {

  /** Two to the power `k`. */
  function Pow2(k: nat): (p: nat)
    ensures p > 0
  {
    if k == 0 then 1 else 2 * Pow2(k - 1)
  }

  lemma {:induction false} MulAtLeast(d: nat, k: int)
    requires k >= 1
    ensures d * k >= d
    decreases k
  {
    if k > 1 { MulAtLeast(d, k - 1); }
  }

  lemma Distribute(d: int, a: int, b: int)
    ensures d * (a - b) == d * a - d * b && d * (a + b) == d * a + d * b
  {
  }

  lemma QuotientUnique(x: int, d: nat, q: int, r: int)
    requires d > 0 && 0 <= r < d && x == d * q + r
    ensures x / d == q && x % d == r
  {
    DivMod(x, d);
    QuotientsAgree(d, q, r, x / d, x % d);
  }

  lemma DivMod(x: int, d: nat)
    requires d > 0
    ensures x == d * (x / d) + x % d && 0 <= x % d < d
  {
  }

  lemma QuotientsAgree(d: nat, q: int, r: int, q': int, r': int)
    requires 0 <= r < d && 0 <= r' < d && d * q + r == d * q' + r'
    ensures q == q' && r == r'
  {
    Distribute(d, q, q');
    Distribute(d, q', q);
    if q > q' { MulAtLeast(d, q - q'); }
    if q < q' { MulAtLeast(d, q' - q); }
  }

  lemma ModAdd(a: int, b: int, n: nat)
    requires n > 0
    ensures (a % n + b % n) % n == (a + b) % n
  {
    var s := a % n + b % n;
    DivMod(a, n); DivMod(b, n); DivMod(s, n);
    Distribute(n, a / n, b / n);
    Distribute(n, a / n + b / n, s / n);
    QuotientUnique(a + b, n, a / n + b / n + s / n, s % n);
  }

  lemma ModOnce(x: int, n: nat)
    requires n <= x < 2 * n
    ensures x % n == x - n
  {
    QuotientUnique(x, n, 1, x - n);
  }

  lemma ModSmall(x: int, n: nat)
    requires 0 <= x < n
    ensures x % n == x
  {
    QuotientUnique(x, n, 0, x);
  }

  /** Congruence modulo `n`. */
  ghost predicate Cong(n: nat, a: int, b: int)
    requires n > 0
  {
    a % n == b % n
  }

  lemma CongWitness(n: nat, a: int, b: int, t: int)
    requires n > 0 && a == b + n * t
    ensures Cong(n, a, b)
  {
    DivMod(b, n);
    Distribute(n, b / n, t);
    QuotientUnique(a, n, b / n + t, b % n);
  }

  lemma CongDifference(n: nat, a: int, b: int) returns (t: int)
    requires n > 0 && Cong(n, a, b)
    ensures a == b + n * t
  {
    t := a / n - b / n;
    DivMod(a, n);
    DivMod(b, n);
    Distribute(n, a / n, b / n);
  }

  lemma CongMod(n: nat, a: int)
    requires n > 0
    ensures Cong(n, a % n, a)
  {
    DivMod(a, n);
    ModSmall(a % n, n);
  }

  lemma CongAdd(n: nat, a: int, a': int, b: int, b': int)
    requires n > 0 && Cong(n, a, a') && Cong(n, b, b')
    ensures Cong(n, a + b, a' + b')
  {
    ModAdd(a, b, n);
    ModAdd(a', b', n);
  }

  lemma CongMul(n: nat, k: int, a: int, b: int)
    requires n > 0 && Cong(n, a, b)
    ensures Cong(n, k * a, k * b)
  {
    var t := CongDifference(n, a, b);
    Distribute(k, b, n * t);
    assert k * (n * t) == n * (k * t);
    CongWitness(n, k * a, k * b, k * t);
  }

  lemma CongEqual(n: nat, a: int, b: int)
    requires n > 0 && Cong(n, a, b) && 0 <= a < n && 0 <= b < n
    ensures a == b
  {
    ModSmall(a, n);
    ModSmall(b, n);
  }
}
