/** Small shared vocabulary: an optional value and integer helpers. */
module Base {

  /** The Some/None datatype standing in for Rust's `Option`. */
  datatype Option<+T> = None | Some(value: T)

  /** The Ok/Err datatype standing in for Rust's `Result`. */
  datatype Result<+T, +E> = Ok(value: T) | Err(error: E)

  function Max(a: int, b: int): int
  {
    if a >= b then a else b
  }

  function Min(a: int, b: int): int
  {
    if a <= b then a else b
  }

  function Abs(a: int): nat
  {
    if a >= 0 then a else -a
  }

  /** `base` raised to `e`, as `i64::pow` / `u64::pow` compute it (overflow aside). */
  function Power(base: int, e: nat): int
  {
    if e == 0 then 1 else base * Power(base, e - 1)
  }

  /** The small powers written out. */
  lemma PowerSmall(v: int)
    ensures Power(v, 0) == 1 && Power(v, 1) == v && Power(v, 2) == v * v
  {
    assert Power(v, 1) == v * Power(v, 0);
  }

  /** Exponents add: `base^(m + n) == base^m * base^n`. */
  lemma {:induction false} PowerSum(base: int, m: nat, n: nat)
    ensures Power(base, m + n) == Power(base, m) * Power(base, n)
    decreases m
  {
    if m > 0 {
      PowerSum(base, m - 1, n);
      assert Power(base, m + n) == base * (Power(base, m - 1) * Power(base, n));
      assert base * (Power(base, m - 1) * Power(base, n)) == (base * Power(base, m - 1)) * Power(base, n);
    }
  }

  lemma {:induction false} MulAtLeast(m: int, x: int)
    requires m > 0 && x >= 1
    ensures m * x >= m
    decreases x
  {
    if x > 1 {
      MulAtLeast(m, x - 1);
      assert m * x == m * (x - 1) + m;
    }
  }

  /** Euclidean division is unique: a quotient and remainder in range are the ones `/` and `%` give. */
  lemma ModUnique(a: int, m: int, q: int, r: int)
    requires m > 0 && 0 <= r < m && a == m * q + r
    ensures a % m == r && a / m == q
  {
    var q2, r2 := a / m, a % m;
    assert a == m * q2 + r2;
    assert m * (q - q2) == r2 - r by {
      assert m * (q - q2) == m * q - m * q2;
    }
    if q > q2 {
      MulAtLeast(m, q - q2);
    } else if q < q2 {
      MulAtLeast(m, q2 - q);
    }
  }

  lemma ModAfterBlock(i: int, m: int)
    requires m > 0 && i >= m
    ensures (i - m) % m == i % m
  {
    var q, r := i / m, i % m;
    assert i - m == m * (q - 1) + r by {
      assert m * (q - 1) == m * q - m;
    }
    ModUnique(i - m, m, q - 1, r);
  }
}
