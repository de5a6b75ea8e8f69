/** Multiples of a size. */
module Multiples {
  lemma {:induction false} Ordered(x: nat, y: nat, k: nat)
    requires x <= y
    ensures x * k <= y * k
    decreases y - x
  {
    if x < y {
      Ordered(x + 1, y, k);
      assert (x + 1) * k == x * k + k;
    }
  }

  lemma NextMultiple(n: nat, k: nat)
    ensures (n + 1) * k == n * k + k
  {
  }

  lemma Scaled(x: nat, y: nat, k: nat)
    requires k > 0
    ensures x * k <= y * k <==> x <= y
  {
    if x <= y {
      Ordered(x, y, k);
    } else {
      Ordered(y + 1, x, k);
      assert (y + 1) * k == y * k + k;
    }
  }

  lemma UniqueDivision(n: nat, k: nat, q: nat, r: nat)
    requires n == q * k + r && r < k
    ensures n / k == q && n % k == r
  {
    var p := n / k;
    assert n == p * k + n % k;
    assert (p + 1) * k == p * k + k && (q + 1) * k == q * k + k;
    Scaled(p + 1, q, k);
    Scaled(q + 1, p, k);
  }

  lemma Quotient(n: nat, k: nat)
    requires k > 0
    ensures (n * k) / k == n
  {
    UniqueDivision(n * k, k, n, 0);
  }
}
