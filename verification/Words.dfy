/** The 32-bit machine arithmetic of the target: `size_t` wraps, and a cast to `int` reads the top bit as a sign. */
module Words {

  const TWO_31: int := 0x8000_0000
  const TWO_32: int := 0x1_0000_0000

  type byte = x: int | 0 <= x < 256

  function ToU32(x: int): int {
    x % TWO_32
  }

  function ToI32(x: int): int {
    var u := ToU32(x);
    if u < TWO_31 then u else u - TWO_32
  }

  lemma ToU32Small(x: int)
    requires 0 <= x < TWO_32
    ensures ToU32(x) == x
  {
  }

  lemma ToI32Small(x: int)
    requires -TWO_31 <= x < TWO_31
    ensures ToI32(x) == x
  {
  }

  function Pow2(k: nat): (r: nat)
    ensures r >= 1
  {
    if k == 0 then 1 else 2 * Pow2(k - 1)
  }

  lemma {:induction false} Pow2Monotone(j: nat, k: nat)
    requires j <= k
    ensures Pow2(j) <= Pow2(k)
    decreases k
  {
    if j < k {
      Pow2Monotone(j, k - 1);
    }
  }

  lemma {:induction false} Pow2Sum(j: nat, k: nat)
    ensures Pow2(j + k) == Pow2(j) * Pow2(k)
  {
    if j > 0 {
      Pow2Sum(j - 1, k);
    }
  }

  lemma Pow2Square(k: nat, v: int)
    requires Pow2(k) == v
    ensures Pow2(2 * k) == v * v
  {
    Pow2Sum(k, k);
    assert 2 * k == k + k;
  }

  lemma Pow2OfThirty()
    ensures Pow2(30) == 0x4000_0000 && Pow2(31) == TWO_31 && Pow2(32) == TWO_32
  {
    assert Pow2(1) == 2;
    Pow2Square(1, 2);
    Pow2Square(2, 4);
    Pow2Square(4, 16);
    Pow2Square(8, 0x100);
    Pow2Square(16, 0x1_0000);
    assert Pow2(32) == 2 * Pow2(31) && Pow2(31) == 2 * Pow2(30);
  }

  lemma MultipleHasNoRemainder(q: int, r: int)
    requires r > 0
    ensures (q * r) % r == 0
  {
    var m := q * r;
    assert (q - m / r) * r == m % r;
    NoMultipleBetween(q - m / r, r);
  }

  lemma NoMultipleBetween(d: int, r: int)
    requires 0 <= d * r < r
    ensures d == 0
  {
  }

  lemma NoMultipleAround(d: int, r: int)
    requires -r < d * r < r
    ensures d == 0
  {
  }

  lemma Residue(n: int, w: int, q: int, r: int)
    requires n == q * w + r && 0 <= r < w
    ensures n % w == r && n / w == q
  {
    assert (n / w - q) * w == r - n % w;
    NoMultipleAround(n / w - q, w);
  }

  lemma ModuloShift(x: int, k: int, m: int)
    requires m > 0
    ensures (k * m + x) % m == x % m
  {
    var q := x / m;
    assert k * m + q * m == (k + q) * m;
    Residue(k * m + x, m, k + q, x % m);
  }
}
