/** Positions in a ring of n cells: remainders of a position that only grows. */
module RingMath {

  lemma ModIs(x: int, n: int, q: int, r: int)
    requires 0 <= r < n && x == n * q + r
    ensures x % n == r && x / n == q
  {
    MulCases(n, x / n - q);
    assert x == n * (x / n) + x % n;
    assert n * (x / n - q) == n * (x / n) - n * q;
  }

  lemma MulCases(n: int, d: int)
    requires n >= 0
    ensures d >= 1 ==> n * d >= n
    ensures d <= -1 ==> n * d <= -n
  {
  }

  // a step of at most a whole turn
  lemma ModAdd(b: nat, j: nat, n: nat)
    requires 0 < n && j <= n
    ensures (b + j) % n == if b % n + j < n then b % n + j else b % n + j - n
  {
    var q, r := b / n, b % n;
    assert b == n * q + r;
    if r + j < n {
      ModIs(b + j, n, q, r + j);
    } else {
      assert n * (q + 1) == n * q + n;
      ModIs(b + j, n, q + 1, r + j - n);
    }
  }

  // the cells from position a to position b, going round
  function Used(a: nat, b: nat, n: nat): (d: nat)
    requires a < n && b < n
    ensures d < n && d == if b >= a then b - a else b - a + n
  {
    ModIs(b - a, n, if b >= a then 0 else -1, if b >= a then b - a else b - a + n);
    (b - a) % n
  }

  // the position k cells on from a
  function On(a: nat, k: nat, n: nat): (b: nat)
    requires a < n && k <= n
    ensures b < n && b == if a + k < n then a + k else a + k - n
  {
    ModAdd(a, k, n);
    ModIs(a, n, 0, a);
    (a + k) % n
  }

  // positions less than a turn apart are different cells
  lemma ModDistinct(a: nat, b: nat, n: nat)
    requires a < b < a + n
    ensures a % n != b % n
  {
    ModAdd(a, b - a, n);
  }

  // the cells between two positions less than a turn apart, counted round the ring
  lemma ModDist(a: nat, b: nat, n: nat)
    requires a <= b < a + n
    ensures (b % n - a % n + n) % n == b - a
  {
    ModAdd(a, b - a, n);
    var d := b - a;
    if a % n + d < n {
      ModIs(b % n - a % n + n, n, 1, d);
    } else {
      ModIs(b % n - a % n + n, n, 0, d);
    }
  }

  // cells in groups of w: the cell of the first position of group v
  lemma ModGroup(v: nat, n: nat, w: nat)
    requires 0 < n && 0 < w
    ensures n * w > 0 && (v * w) % (n * w) == (v % n) * w
  {
    var q, r := v / n, v % n;
    assert v == n * q + r;
    assert v * w == (n * w) * q + r * w by {
      assert (n * q + r) * w == (n * q) * w + r * w;
      assert (n * q) * w == (n * w) * q;
    }
    assert 0 <= r * w < n * w;
    ModIs(v * w, n * w, q, r * w);
  }
}
