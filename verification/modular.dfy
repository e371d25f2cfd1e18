/** Java's `i % m` on a non-negative index, written as repeated subtraction so that proofs
    unfold it a step at a time; `WrapIsMod` shows it is the remainder. */
module Modular {

  /** The slot index `i % m` of a ring of `m` slots. */
  function Wrap(i: nat, m: nat): (r: nat)
    requires m > 0
    ensures r < m
    decreases i
  {
    if i < m then i else Wrap(i - m, m)
  }

  lemma {:induction false} WrapIsMod(i: nat, m: nat)
    requires m > 0
    ensures Wrap(i, m) == i % m
    decreases i
  {
    if i < m {
      ModUnique(i, m, 0, i);
    } else {
      WrapIsMod(i - m, m);
      ModUnique(i, m, (i - m) / m + 1, (i - m) % m);
    }
  }

  /** Division with remainder is unique. */
  lemma ModUnique(x: nat, m: nat, q: int, r: int)
    requires 0 <= r < m && x == m * q + r
    ensures x % m == r
  {
    var q2, r2 := x / m, x % m;
    assert x == m * q2 + r2;
    assert m * (q - q2) == r2 - r;
    if q - q2 >= 1 {
      MulAtLeast(m, q - q2);
    } else if q - q2 <= -1 {
      MulAtLeast(m, q2 - q);
    }
  }

  lemma MulAtLeast(m: int, k: int)
    requires m > 0 && k >= 1
    ensures m * k >= m
  {
  }

  /** Fewer than `m` consecutive indices land in distinct slots. */
  lemma {:induction false} WrapDistinct(i: nat, j: nat, m: nat)
    requires 0 < m && i < j < i + m
    ensures Wrap(i, m) != Wrap(j, m)
    decreases i
  {
    if i >= m {
      WrapDistinct(i - m, j - m, m);
    } else if j >= m {
      assert Wrap(j, m) == Wrap(j - m, m) == j - m;
    }
  }
}
