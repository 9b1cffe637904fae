// Nonlinear and modular arithmetic the other modules need.
module Arith {
  lemma MulAtLeast(x: int, n: int)
    requires x >= 1 && n >= 0
    ensures x * n >= n
  {
  }

  lemma Distribute(k: int, q: int, n: int)
    ensures (k - q) * n == k * n - q * n
  {
  }

  lemma QuotientUnique(k: int, r: int, q: int, t: int, n: int)
    requires 0 <= r < n && 0 <= t < n
    requires k * n + r == q * n + t
    ensures k == q && r == t
  {
    Distribute(k, q, n);
    Distribute(q, k, n);
    if k > q {
      MulAtLeast(k - q, n);
    } else if q > k {
      MulAtLeast(q - k, n);
    }
  }

  lemma ModOf(a: nat, k: nat, n: nat, r: nat)
    requires n > 0 && r < n && a == k * n + r
    ensures a / n == k && a % n == r
  {
    assert a == (a / n) * n + a % n;
    QuotientUnique(k, r, a / n, a % n, n);
  }

  lemma TwiceEven(x: nat, y: nat)
    requires x == 2 * y
    ensures x % 2 == 0
  {
  }

  lemma EvenSum(x: nat, y: nat)
    requires x % 2 == 0 && y % 2 == 0
    ensures (x + y) % 2 == 0
  {
  }

  lemma NineDivides(n: nat)
    requires 8 * n % 9 == 0
    ensures n % 9 == 0
  {
    var q, r, k := n / 9, n % 9, 8 * n / 9;
    assert 9 * (k - 8 * q) == 8 * r;
  }

  lemma EvenRest(at: nat, len: nat)
    requires at <= len && at % 2 == 0
    ensures len % 2 == 0 ==> (len - at) % 2 == 0
  {
    var h := at / 2;
    assert at == 2 * h;
  }

  lemma EvenIf4(x: nat)
    requires x % 4 == 0
    ensures x % 2 == 0
  {
    TwiceEven(x, 2 * (x / 4));
  }

  lemma EvenByEighth(x: nat)
    requires x % 8 == 0 || x % 8 == 2
    ensures x % 2 == 0
  {
    TwiceEven(x, if x % 8 == 0 then 4 * (x / 8) else 4 * (x / 8) + 1);
  }

  function Pow256(n: nat): (r: nat)
    ensures r >= 1
  {
    if n == 0 then 1 else 256 * Pow256(n - 1)
  }
}
