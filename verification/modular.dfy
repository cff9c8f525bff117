/** Facts about Euclidean `%` with a symbolic modulus, which the solver does not find unaided. */
module Modular {

  lemma MulPos(d: int, n: int)
    requires 1 <= d && 0 < n
    ensures n <= d * n
  {
  }

  /** Euclidean division is unique: a quotient and an in-range remainder fix `a % n`. */
  lemma ModUnique(a: int, n: int, q: int, m: int)
    requires 0 < n && 0 <= m < n && a == q * n + m
    ensures a % n == m && a / n == q
  {
    var q', m' := a / n, a % n;
    assert q' * n + m' == q * n + m;
    var d := q - q';
    assert d * n == q * n - q' * n;
    assert d * n == m' - m;
    if d >= 1 {
      MulPos(d, n);
    } else if d <= -1 {
      MulPos(-d, n);
    }
  }

  lemma ModAddCap(a: int, n: int)
    requires 0 < n
    ensures (a + n) % n == a % n
  {
    var q := a / n;
    assert a == q * n + a % n;
    assert (q + 1) * n == q * n + n;
    ModUnique(a + n, n, q + 1, a % n);
  }

  /** Reducing the left summand first does not change the result. */
  lemma ModShift(a: int, b: int, n: int)
    requires 0 < n
    ensures (a % n + b) % n == (a + b) % n
  {
    var q, m := a / n, a % n;
    assert a == q * n + m;
    var q2, m2 := (m + b) / n, (m + b) % n;
    assert m + b == q2 * n + m2;
    assert (q + q2) * n == q * n + q2 * n;
    ModUnique(a + b, n, q + q2, m2);
  }

  lemma ModSelf(i: int, n: int)
    requires 0 <= i < n
    ensures (i + n) % n == i && i % n == i
  {
    ModUnique(i + n, n, 1, i);
    ModUnique(i, n, 0, i);
  }

  /** `a mod n` for `0 <= a < 2n`: one conditional subtraction, which stays in linear arithmetic. */
  function Wrap(a: int, n: int): (r: int)
    requires 0 <= a < 2 * n
    ensures 0 <= r < n
  {
    if a < n then a else a - n
  }

  lemma WrapMod(a: int, n: int)
    requires 0 <= a < 2 * n
    ensures Wrap(a, n) == a % n
  {
    if a < n {
      ModUnique(a, n, 0, a);
    } else {
      ModUnique(a, n, 1, a - n);
    }
  }

  /** Stepping back `d <= n` from `i < n`: the wrapped index is the Euclidean remainder. */
  lemma WrapBack(i: int, d: int, n: int)
    requires 0 <= i < n && 0 <= d <= n
    ensures Wrap(i + n - d, n) == (i - d) % n
  {
    WrapMod(i + n - d, n);
    ModAddCap(i - d, n);
  }
}
