/** Integer facts behind the progress values. */
module Progress {
  /** `a // n` for a positive `n`, by repeated subtraction. */
  function Quot(a: nat, n: nat): nat
    requires 0 < n
    decreases a
  {
    if a < n then 0 else 1 + Quot(a - n, n)
  }

  /** Repeated subtraction is floor division: `Quot(a, n)` is the `q` with
      `q * n <= a < q * n + n`. */
  lemma {:induction false} QuotIsFloor(a: nat, n: nat)
    requires 0 < n
    ensures Quot(a, n) * n <= a < Quot(a, n) * n + n
    decreases a
  {
    if n <= a {
      var q := Quot(a - n, n);
      QuotIsFloor(a - n, n);
      assert (1 + q) * n == q * n + n;
    }
  }

  /** `int(i * c / n)`: `i` parts of `n` on a scale of `c`. */
  function Scaled(i: nat, c: nat, n: nat): nat
    requires 0 < n
  {
    Quot(i * c, n)
  }

  lemma {:induction false} QuotMonotone(a: nat, b: nat, n: nat)
    requires 0 < n && a <= b
    ensures Quot(a, n) <= Quot(b, n)
    decreases a
  {
    if n <= a {
      QuotMonotone(a - n, b - n, n);
    }
  }

  lemma {:induction false} QuotOfMultiple(c: nat, n: nat)
    requires 0 < n
    ensures Quot(c * n, n) == c
  {
    if c > 0 {
      assert c * n - n == (c - 1) * n;
      QuotOfMultiple(c - 1, n);
    }
  }

  lemma MulMonotone(a: nat, b: nat, c: nat)
    requires a <= b
    ensures a * c <= b * c
  {
  }

  /** The scaled value grows with `i` and stays at most `c` while `i <= n`. */
  lemma ScaledBounds(i: nat, j: nat, c: nat, n: nat)
    requires 0 < n && i <= j <= n
    ensures Scaled(i, c, n) <= Scaled(j, c, n) <= c
  {
    MulMonotone(i, j, c);
    MulMonotone(j, n, c);
    QuotMonotone(i * c, j * c, n);
    QuotMonotone(j * c, n * c, n);
    assert n * c == c * n;
    QuotOfMultiple(c, n);
  }
}
