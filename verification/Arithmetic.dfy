/** Facts about products and quotients of natural numbers that the solver does not find by itself. */
module Arithmetic {
  lemma ProductAtLeast(n: nat, size: nat)
    requires n > 0
    ensures n * size >= size
  {
  }

  lemma Distribute(a: nat, b: nat, size: nat)
    ensures (a + b) * size == a * size + b * size
  {
  }

  lemma QuotientRemainder(x: nat, size: nat)
    requires size > 0
    ensures (x / size) * size + x % size == x
  {
  }

  /** Quotient and remainder are unique. */
  lemma DivUnique(a: nat, size: nat, d: nat, r: nat)
    requires size > 0 && a == d * size + r && r < size
    ensures a / size == d && a % size == r
  {
    var d', r' := a / size, a % size;
    assert a == d' * size + r';
    if d < d' {
      assert (d' - d) * size == d' * size - d * size;
      ProductAtLeast(d' - d, size);
    } else if d > d' {
      assert (d - d') * size == d * size - d' * size;
      ProductAtLeast(d - d', size);
    }
  }

  /** Adding a multiple does not change a remainder. */
  lemma ModShift(x: nat, n: nat, size: nat)
    requires size > 0 && n % size == 0
    ensures (x + n) % size == x % size && (x + n) / size == x / size + n / size
  {
    var dx, dn := x / size, n / size;
    QuotientRemainder(x, size);
    QuotientRemainder(n, size);
    Distribute(dx, dn, size);
    DivUnique(x + n, size, dx + dn, x % size);
  }

  lemma MultipleMod(q: nat, size: nat)
    requires size > 0
    ensures (q * size) % size == 0 && (q * size) / size == q
  {
    DivUnique(q * size, size, q, 0);
  }

  /** Equal remainders stay equal when both numbers move by the same amount. */
  lemma ModsMove(x: nat, y: nat, n: nat, size: nat)
    requires size > 0 && x % size == y % size
    ensures (x + n) % size == (y + n) % size
  {
    if y <= x {
      ModsMoveUp(x, y, n, size);
    } else {
      ModsMoveUp(y, x, n, size);
    }
  }

  lemma ModsMoveUp(x: nat, y: nat, n: nat, size: nat)
    requires size > 0 && x % size == y % size && y <= x
    ensures (x + n) % size == (y + n) % size
  {
    var dx, dy := x / size, y / size;
    assert x == dx * size + x % size && y == dy * size + y % size;
    if dx < dy {
      assert (dy - dx) * size == dy * size - dx * size;
      ProductAtLeast(dy - dx, size);
    }
    assert (dx - dy) * size == x - y;
    MultipleMod(dx - dy, size);
    ModShift(y + n, x - y, size);
  }

  /** `1 << e` */
  function Pow2(e: nat): (p: nat)
    ensures p > 0
  {
    if e == 0 then 1 else 2 * Pow2(e - 1)
  }

  lemma {:induction false} Pow2Add(a: nat, b: nat)
    ensures Pow2(a + b) == Pow2(a) * Pow2(b)
  {
    if a > 0 {
      Pow2Add(a - 1, b);
    }
  }

  ghost predicate Least(s: set<nat>, x: nat) { x in s && forall y <- s :: x <= y }
}
