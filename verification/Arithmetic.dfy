/** Division facts that several modules need. */
module Arithmetic {

  lemma Scale(d: int, n: int)
    requires n > 0
    ensures d >= 1 ==> d * n >= n
    ensures d <= -1 ==> d * n <= -n
  {
  }

  /** Quotient and remainder are unique. */
  lemma ModUnique(a: int, n: nat, q: int, r: nat)
    requires a == q * n + r && r < n
    ensures a % n == r && a / n == q
  {
    var d := a / n - q;
    assert d * n == r - a % n by { assert a == (a / n) * n + a % n; assert (a / n - q) * n == (a / n) * n - q * n; }
    Scale(d, n);
  }

  lemma ModNext(a: nat, n: nat)
    requires n > 1
    ensures (a + 1) % n == if a % n == n - 1 then 0 else a % n + 1
  {
    var q, r := a / n, a % n;
    assert a == q * n + r;
    if r == n - 1 {
      assert a + 1 == (q + 1) * n;
      ModUnique(a + 1, n, q + 1, 0);
    } else {
      ModUnique(a + 1, n, q, r + 1);
    }
  }

  lemma DivSmaller(num: nat, base: nat)
    requires 2 <= base <= num
    ensures num / base < num && num == num / base * base + num % base
  {
    TwiceAtMost(num / base, base);
  }

  lemma TwiceAtMost(q: nat, base: nat)
    requires base >= 2
    ensures 2 * q <= q * base
  {
  }
}
