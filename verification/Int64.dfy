/** Two's-complement arithmetic on 64 bits, as Go's int64 and time.Duration have it. */
module Int64 {

  const LIMIT: int := 0x8000_0000_0000_0000
  const MODULUS: int := 0x1_0000_0000_0000_0000

  function Wrap(x: int): (r: int)
    ensures -LIMIT <= r < LIMIT
  {
    (x + LIMIT) % MODULUS - LIMIT
  }

  function Pow2(n: nat): nat {
    if n == 0 then 1 else 2 * Pow2(n - 1)
  }

  /** 1 << n */
  function Shifted(n: nat): int {
    Wrap(Pow2(n))
  }

  function Times(x: int, y: int): int {
    Wrap(x * y)
  }

  lemma WrapInRange(x: int)
    requires -LIMIT <= x < LIMIT
    ensures Wrap(x) == x
  {
  }

  /** Wrapping keeps the low 64 bits. */
  lemma WrapByResidue(x: int)
    ensures Wrap(x) == if x % MODULUS < LIMIT then x % MODULUS else x % MODULUS - MODULUS
  {
    var q, r := x / MODULUS, x % MODULUS;
    assert x == q * MODULUS + r;
    WrapShift(r, q);
    if r < LIMIT {
      WrapInRange(r);
    } else {
      WrapShift(r - MODULUS, 1);
      WrapInRange(r - MODULUS);
    }
  }

  lemma ModShift(x: int, k: int)
    ensures (x + k * MODULUS) % MODULUS == x % MODULUS
  {
    var q, r := x / MODULUS, x % MODULUS;
    assert x + k * MODULUS == (q + k) * MODULUS + r;
  }

  lemma WrapShift(x: int, k: int)
    ensures Wrap(x + k * MODULUS) == Wrap(x)
  {
    ModShift(x + LIMIT, k);
  }

  /** Wrapping a factor first makes no difference to the wrapped product. */
  lemma WrapFactor(a: int, b: int)
    ensures Wrap(a * Wrap(b)) == Wrap(a * b)
  {
    var k := (b + LIMIT) / MODULUS;
    assert Wrap(b) == b - k * MODULUS;
    Distribute(a, b, k);
    WrapShift(a * b, -(a * k));
  }

  lemma Distribute(a: int, b: int, k: int)
    ensures a * (b - k * MODULUS) == a * b + -(a * k) * MODULUS
  {
    assert a * (b - k * MODULUS) == a * b - a * (k * MODULUS);
    assert a * (k * MODULUS) == (a * k) * MODULUS;
  }

  lemma {:induction false} Pow2Adds(m: nat, n: nat)
    ensures Pow2(m + n) == Pow2(m) * Pow2(n)
  {
    if m > 0 {
      Pow2Adds(m - 1, n);
      DoubleFirst(Pow2(m - 1), Pow2(n));
    }
  }

  lemma DoubleFirst(a: nat, b: nat)
    ensures 2 * a * b == 2 * (a * b)
  {
  }

  lemma {:induction false} Pow2Monotone(m: nat, n: nat)
    requires m <= n
    ensures Pow2(m) <= Pow2(n)
  {
    if m < n {
      Pow2Monotone(m, n - 1);
    }
  }

  lemma Pow2At32()
    ensures Pow2(32) == 0x1_0000_0000
    ensures Pow2(33) == 0x2_0000_0000
  {
    assert Pow2(8) == 0x100;
    Pow2Adds(8, 8);
    Pow2Adds(16, 16);
  }
}
