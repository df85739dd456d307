/** Shared helpers: an Option/Result pair for error paths, and powers of two
    together with the division facts the bit-field proofs rely on. */
module Base {

  datatype Option<+T> = None | Some(value: T)

  /** A value or an error. */
  datatype Result<+R, +E> = Success(value: R) | Failure(error: E)

  /** 2^n. */
  function Pow2(n: nat): (r: nat)
    ensures r >= 1
  {
    if n == 0 then 1 else 2 * Pow2(n - 1)
  }

  /** Unsigned right shift: `n >> k`. */
  function Shr(n: nat, k: nat): nat
  {
    var d := Pow2(k);
    DivNonNegative(n, d);
    n / d
  }

  /** Lets `Shr` return a `nat`: the quotient of two naturals is one. Stated
      as a lemma so that the fact is in scope only where `Shr` asks for it. */
  lemma DivNonNegative(n: nat, d: nat)
    requires d > 0
    ensures n / d >= 0
  {
  }

  /** Keeping the `width` lowest bits: `n & (2^width - 1)`. */
  function Low(n: nat, width: nat): (r: nat)
    ensures r < Pow2(width)
  {
    n % Pow2(width)
  }

  lemma {:induction false} Pow2Add(a: nat, b: nat)
    ensures Pow2(a + b) == Pow2(a) * Pow2(b)
  {
    if b > 0 {
      Pow2Add(a, b - 1);
      assert Pow2(a + b) == 2 * Pow2(a + b - 1);
    }
  }

  /** The powers of two that the 32-bit record layouts use. */
  lemma Pow2Values()
    ensures Pow2(1) == 2 && Pow2(6) == 64 && Pow2(10) == 1024
    ensures Pow2(15) == 32768 && Pow2(25) == 33554432
    ensures Pow2(31) == 0x8000_0000 && Pow2(32) == 0x1_0000_0000
  {
    assert Pow2(2) == 4;
    assert Pow2(3) == 8;
    assert Pow2(5) == 32;
    assert Pow2(6) == 64;
    Pow2Add(5, 5);
    Pow2Add(10, 5);
    Pow2Add(15, 10);
    Pow2Add(25, 6);
    assert Pow2(32) == 2 * Pow2(31);
  }

  lemma {:induction false} MulAtLeast(d: int, k: int)
    requires d > 0 && k >= 1
    ensures d * k >= d
  {
    if k > 1 {
      MulAtLeast(d, k - 1);
      assert d * k == d * (k - 1) + d;
    }
  }

  lemma MulSub(d: int, a: int, b: int)
    ensures d * (a - b) == d * a - d * b
  {
  }

  /** Division with remainder determines quotient and remainder uniquely. */
  lemma DivModUnique(n: int, d: int, q: int, r: int)
    requires d > 0 && 0 <= r < d && n == d * q + r
    ensures n / d == q && n % d == r
  {
    var q', r' := n / d, n % d;
    assert n == d * q' + r';
    MulSub(d, q, q');
    MulSub(d, q', q);
    if q > q' {
      MulAtLeast(d, q - q');
    } else if q < q' {
      MulAtLeast(d, q' - q);
    }
  }

  lemma MulDistrib(x: int, y: int, q: int, r: int)
    ensures x * (y * q + r) == (x * y) * q + x * r
  {
  }

  lemma {:induction false} MulMono(x: nat, a: nat, b: nat)
    requires a <= b
    ensures x * a <= x * b
  {
    MulSub(x, b, a);
    if b > a {
      if x > 0 {
        MulAtLeast(x, b - a);
      }
    }
  }

  /** Dividing twice is dividing by the product. */
  lemma DivDiv(n: nat, x: nat, y: nat)
    requires x > 0 && y > 0
    ensures n / x / y == n / (x * y)
  {
    var q1, r1 := n / x, n % x;
    var q2, r2 := q1 / y, q1 % y;
    assert n == x * q1 + r1;
    assert q1 == y * q2 + r2;
    MulDistrib(x, y, q2, r2);
    assert n == (x * y) * q2 + (x * r2 + r1);
    MulMono(x, r2, y - 1);
    MulSub(x, y, 1);
    DivModUnique(n, x * y, q2, x * r2 + r1);
  }

  /** Shifting by `a` and then by `b` is shifting by `a + b`. */
  lemma ShrShr(n: nat, a: nat, b: nat)
    ensures Shr(Shr(n, a), b) == Shr(n, a + b)
  {
    Pow2Add(a, b);
    DivDiv(n, Pow2(a), Pow2(b));
  }

  /** Peeling off the lowest binary digit of a remainder. */
  lemma ModDouble(n: nat, m: nat)
    requires m > 0
    ensures n % (2 * m) == 2 * ((n / 2) % m) + n % 2
  {
    var q := n / 2;
    assert n == 2 * q + n % 2;
    assert q == m * (q / m) + q % m;
    assert n == (2 * m) * (q / m) + (2 * (q % m) + n % 2);
    DivModUnique(n, 2 * m, q / m, 2 * (q % m) + n % 2);
  }
}
