// Fixed-width integers of the source, written out over unbounded integers.
module Words {
  const U32: int := 0x1_0000_0000
  const I31: int := 0x8000_0000

  type u32 = x: int | 0 <= x < 0x1_0000_0000
  type byte = x: int | 0 <= x < 256

  // The low 32 bits of x.
  function Wrap32(x: int): (r: u32)
  {
    x % U32
  }

  function Inc32(x: int): (r: u32)
  {
    Wrap32(x + 1)
  }

  // The low 32 bits of x read as a two's complement number.
  function Int32(x: int): (r: int)
    ensures -I31 <= r < I31
    ensures Wrap32(r) == Wrap32(x)
  {
    var w := Wrap32(x);
    if w < I31 then w else w - U32
  }

  // A number that already fits is read back unchanged.
  lemma Int32Fits(x: int)
    requires -I31 <= x < I31
    ensures Int32(x) == x
  {
    WrapShift(x, 1);
  }

  lemma Wrapped(x: u32)
    ensures Wrap32(x) == x
  {
  }

  lemma WrapShift(x: int, k: int)
    ensures Wrap32(x + k * U32) == Wrap32(x)
  {
    var q := x / U32;
    assert x + k * U32 == (q + k) * U32 + x % U32;
    DivUnique(x + k * U32, q + k, x % U32);
  }

  lemma DivUnique(x: int, q: int, r: int)
    requires x == q * U32 + r && 0 <= r < U32
    ensures x / U32 == q && x % U32 == r
  {
  }

  // Modular arithmetic on counters that have been reduced, possibly at different times.
  lemma WrapDiff(a: int, b: int)
    ensures Wrap32(Wrap32(a) - Wrap32(b)) == Wrap32(a - b)
  {
    WrapShift(Wrap32(a) - Wrap32(b), a / U32 - b / U32);
  }

  lemma WrapSum(a: int, b: int)
    ensures Wrap32(Wrap32(a) + b) == Wrap32(a + b)
  {
    WrapShift(Wrap32(a) + b, a / U32);
  }

  // The difference of two wrapped counters, read as signed, is the true difference
  // whenever that difference fits.
  lemma SignedDistance(a: int, b: int)
    requires -I31 <= a - b < I31
    ensures Int32(Wrap32(a) - Wrap32(b)) == a - b
  {
    WrapDiff(a, b);
    Int32Fits(a - b);
  }

  // ---- Division by a variable

  lemma MulMono(n: int, a: int, b: int)
    requires n > 0 && a <= b
    ensures n * a <= n * b
  {
  }

  lemma MulGrows(n: int, a: int, b: int)
    requires n > 0 && a < b
    ensures n * a + n <= n * b
  {
    assert n * (a + 1) == n * a + n;
    MulMono(n, a + 1, b);
  }

  lemma DivModUnique(x: int, n: int, q: int, r: int)
    requires n > 0 && 0 <= r < n && x == n * q + r
    ensures x / n == q && x % n == r
  {
    assert x == n * (x / n) + x % n;
    if x / n > q {
      MulGrows(n, q, x / n);
    } else if x / n < q {
      MulGrows(n, x / n, q);
    }
  }

  lemma ModAdd(x: int, d: int, n: int)
    requires n > 0 && 0 <= d < n
    ensures (x + d) % n == if x % n + d < n then x % n + d else x % n + d - n
  {
    var q, a := x / n, x % n;
    assert x == n * q + a;
    if a + d < n {
      DivModUnique(x + d, n, q, a + d);
    } else {
      assert n * (q + 1) == n * q + n;
      DivModUnique(x + d, n, q + 1, a + d - n);
    }
  }

  // A number in base 256, down from its fourth digit.
  lemma FourDigits(n: nat)
    ensures n == 16777216 * (n / 16777216) + 65536 * (n / 65536 % 256) + 256 * (n / 256 % 256) + n % 256
  {
    var q1, q2, q3 := n / 256, n / 256 / 256, n / 256 / 256 / 256;
    assert q1 == 256 * q2 + q1 % 256;
    assert q2 == 256 * q3 + q2 % 256;
    DivModUnique(n, 65536, q2, 256 * (q1 % 256) + n % 256);
    DivModUnique(n, 16777216, q3, 65536 * (q2 % 256) + 256 * (q1 % 256) + n % 256);
  }

  function Least(a: nat, b: nat): (r: nat)
    ensures r <= a && r <= b && (r == a || r == b)
  {
    if a < b then a else b
  }

  function Pow2(n: nat): (r: nat)
    ensures r > 0
  {
    if n == 0 then 1 else 2 * Pow2(n - 1)
  }
}
