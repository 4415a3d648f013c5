/** Division with remainder, and places round a ring of n. */
module Modular {

  lemma MultipleIsLarge(x: int, d: int)
    requires d > 0
    ensures x >= 1 ==> x * d >= d
    ensures x <= -1 ==> x * d <= -d
  {
    if x >= 1 {
      assert (x - 1) * d >= 0;
    } else if x <= -1 {
      assert (-1 - x) * d >= 0;
    }
  }

  lemma DivModUnique(n: int, d: int, q: int, r: int)
    requires 0 <= r < d && n == q * d + r
    ensures n / d == q && n % d == r
  {
    var k, s := n / d, n % d;
    assert n == k * d + s;
    assert (q - k) * d == q * d - k * d == s - r;
    MultipleIsLarge(q - k, d);
  }

  lemma ModUnique(x: int, n: int, q: int, c: int)
    requires 0 <= c < n && x == q * n + c
    ensures x % n == c
  {
    DivModUnique(x, n, q, c);
  }

  lemma ModOfSum(a: nat, b: nat, n: nat)
    requires n > 0
    ensures (a % n + b) % n == (a + b) % n
  {
    var q := a / n;
    assert a + b == q * n + (a % n + b);
    var k := (a % n + b) / n;
    ModUnique(a + b, n, q + k, (a % n + b) % n) by {
      assert (q + k) * n == q * n + k * n;
    }
  }

  /** Two numbers less than n apart fall on different places of a ring of n. */
  lemma DistinctPlaces(i: nat, j: nat, n: nat)
    requires i < j < i + n
    ensures i % n != j % n
  {
    if i % n == j % n {
      var d := j / n - i / n;
      assert j - i == d * n;
      MultipleIsLarge(d, n);
    }
  }

  lemma CountIsDifference(r: nat, w: nat, n: nat)
    requires r <= w < r + n
    ensures (w % n + n - r % n) % n == w - r
  {
    var d := w / n - r / n;
    assert w % n + n - r % n == (w - r) + n - d * n;
    assert n - d * n == (1 - d) * n;
    ModUnique(w % n + n - r % n, n, 1 - d, w - r);
  }

  /** The place after k's. */
  lemma NextPlace(k: nat, n: nat)
    requires n > 0
    ensures (k + 1) % n == if k % n + 1 >= n then 0 else k % n + 1
  {
    var q, c := k / n, k % n;
    assert k == q * n + c;
    if c + 1 >= n {
      assert (q + 1) * n == q * n + n;
      ModUnique(k + 1, n, q + 1, 0);
    } else {
      ModUnique(k + 1, n, q, c + 1);
    }
  }

  /** One turn round the ring. */
  lemma SamePlace(k: nat, n: nat)
    requires n > 0
    ensures (k + n) % n == k % n
  {
    var q, c := k / n, k % n;
    assert k == q * n + c;
    assert (q + 1) * n == q * n + n;
    ModUnique(k + n, n, q + 1, c);
  }

  lemma OtherPlace(a: nat, b: nat, n: nat)
    requires a != b && a < b + n && b < a + n
    ensures a % n != b % n
  {
    if a < b {
      DistinctPlaces(a, b, n);
    } else {
      DistinctPlaces(b, a, n);
    }
  }
}
