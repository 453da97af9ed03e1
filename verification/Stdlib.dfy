/** The pseudo random numbers of src/nslibc/stdlib.c: a linear congruential generator modulo 2^31 of full period. */
module Stdlib {
  import opened Words

  const FACTOR: int := 1103515245
  const STEP: int := 12345

  /** The value computed from the seed `x`, in 32-bit unsigned arithmetic; the mask keeps the low 31 bits. */
  function Next(x: int): int {
    ToU32(ToU32(x * FACTOR) + STEP) % TWO_31
  }

  /** The value after `n` calls. */
  function Iterate(x: int, n: nat): int {
    if n == 0 then x else Next(Iterate(x, n - 1))
  }

  class Generator {
    var randseed: int
    ghost var seed: int      // what the generator was seeded with last
    ghost var calls: nat     // and how often rand was called since

    ghost predicate Valid()
      reads this
    {
      0 <= randseed < TWO_32 && randseed == Iterate(seed, calls)
    }

    /** The global starts at zero, as if seeded so. */
    constructor ()
      ensures Valid() && seed == 0 && calls == 0
    {
      randseed, seed, calls := 0, 0, 0;
    }

    /** A new sequence begins. */
    method Srand(seed: int)
      requires 0 <= seed < TWO_32
      modifies this
      ensures Valid() && this.seed == seed && calls == 0
    {
      randseed, this.seed, calls := seed, seed, 0;
    }

    /** The n-th call since srand answers the n-th value of the sequence of that seed. */
    method Rand() returns (val: int)
      requires Valid()
      modifies this
      ensures Valid() && seed == old(seed) && calls == old(calls) + 1
      ensures val == Iterate(seed, calls) && 0 <= val < TWO_31
    {
      val := ToU32(ToU32(randseed * FACTOR) + STEP) % TWO_31;
      randseed, calls := val, calls + 1;
    }
  }

  // ---------- the same steps without wrap-around ----------

  ghost function Exact(x: int, n: nat): int {
    if n == 0 then x else Exact(x, n - 1) * FACTOR + STEP
  }

  lemma NextIsModular(x: int)
    ensures Next(x) == (x * 1103515245 + 12345) % 0x8000_0000
  {
    var y := x * FACTOR;
    var q := y / TWO_32;
    var z := ToU32(y) + STEP;
    assert y == q * TWO_32 + ToU32(y);
    ModuloShift(z, 2 * q, TWO_31);
    assert z == z / TWO_32 * TWO_32 + ToU32(z);
    ModuloShift(ToU32(z), 2 * (z / TWO_32), TWO_31);
  }

  lemma ReduceFirst(y: int)
    ensures (y % TWO_31 * FACTOR + STEP) % TWO_31 == (y * FACTOR + STEP) % TWO_31
  {
    var q := y / TWO_31;
    var r := y % TWO_31;
    assert y == q * TWO_31 + r;
    assert y * FACTOR + STEP == q * FACTOR * TWO_31 + (r * FACTOR + STEP);
    ModuloShift(r * FACTOR + STEP, q * FACTOR, TWO_31);
  }

  lemma {:induction false} IterateIsExact(x: int, n: nat)
    requires 0 <= x < TWO_31
    ensures Iterate(x, n) == Exact(x, n) % TWO_31
  {
    if n > 0 {
      IterateIsExact(x, n - 1);
      NextIsModular(Iterate(x, n - 1));
      ReduceFirst(Exact(x, n - 1));
    }
  }

  /** 1 + FACTOR + ... + FACTOR^(n-1). */
  ghost function Sum(n: nat): int {
    if n == 0 then 0 else FACTOR * Sum(n - 1) + 1
  }

  ghost function Power(n: nat): int {
    if n == 0 then 1 else FACTOR * Power(n - 1)
  }

  /** How far `n` steps move `x`: a product of the geometric sum and a number that is always odd. */
  lemma {:induction false} Displacement(x: int, n: nat)
    ensures Exact(x, n) - x == Sum(n) * ((FACTOR - 1) * x + STEP)
  {
    if n > 0 {
      Displacement(x, n - 1);
      var d := (FACTOR - 1) * x + STEP;
      assert Exact(x, n) - x == FACTOR * (Exact(x, n - 1) - x) + d;
      assert FACTOR * (Sum(n - 1) * d) + d == (FACTOR * Sum(n - 1) + 1) * d;
    }
  }

  // ---------- powers of two that divide ----------

  /** 2^k divides n. */
  ghost predicate Divides(k: nat, n: int) {
    k == 0 || (n % 2 == 0 && Divides(k - 1, n / 2))
  }

  lemma {:induction false} DividesIsModulo(k: nat, n: int)
    ensures Divides(k, n) <==> n % Pow2(k) == 0
  {
    if k > 0 {
      DividesIsModulo(k - 1, n / 2);
      HalveModulo(n, Pow2(k - 1));
    }
  }

  lemma HalveModulo(n: int, p: nat)
    requires p > 0
    ensures n % (2 * p) == 0 <==> n % 2 == 0 && n / 2 % p == 0
  {
    if n % (2 * p) == 0 {
      var q := n / (2 * p);
      assert n == 2 * (q * p);
      MultipleHasNoRemainder(q, p);
    }
    if n % 2 == 0 && n / 2 % p == 0 {
      var q := n / 2 / p;
      assert n / 2 == q * p;
      assert n == q * (2 * p);
      MultipleHasNoRemainder(q, 2 * p);
    }
  }

  lemma {:induction false} OddFactorIsIrrelevant(k: nat, s: int, d: int)
    requires d % 2 == 1
    ensures Divides(k, s * d) <==> Divides(k, s)
  {
    if k > 0 {
      OddTimes(s, d);
      if s % 2 == 0 {
        OddFactorIsIrrelevant(k - 1, s / 2, d);
      }
    }
  }

  lemma OddTimes(s: int, d: int)
    requires d % 2 == 1
    ensures s * d % 2 == s % 2 && (s % 2 == 0 ==> s * d / 2 == s / 2 * d)
  {
    var e, t := d / 2, s / 2;
    TimesOdd(s, d, e);
    Residue(s * d, 2, s * e + t, s % 2);
    if s % 2 == 0 {
      EvenTimes(s, t, d);
      Residue(s * d, 2, t * d, 0);
    }
  }

  lemma TimesOdd(s: int, d: int, e: int)
    requires d == 2 * e + 1
    ensures s * d == 2 * (s * e) + s
  {
  }

  lemma EvenTimes(s: int, t: int, d: int)
    requires s == 2 * t
    ensures s * d == 2 * (t * d)
  {
  }

  lemma {:induction false} PowerModFour(n: nat)
    ensures Power(n) % 4 == 1
  {
    if n > 0 {
      PowerModFour(n - 1);
      var q := Power(n - 1) / 4;
      assert Power(n) == 4 * (FACTOR * q) + FACTOR;
    }
  }

  lemma {:induction false} SumSplits(m: nat, n: nat)
    ensures Sum(m + n) == Power(n) * Sum(m) + Sum(n)
    decreases n
  {
    if n > 0 {
      SumSplits(m, n - 1);
      assert FACTOR * (Power(n - 1) * Sum(m)) == Power(n) * Sum(m);
    }
  }

  lemma {:induction false} SumParity(n: nat)
    ensures Sum(n) % 2 == n % 2
  {
    if n > 0 {
      SumParity(n - 1);
      OddTimes(Sum(n - 1), FACTOR);
      OtherParity(Sum(n - 1) * FACTOR);
    }
  }

  lemma OtherParity(y: int)
    ensures (y + 1) % 2 == 1 - y % 2
  {
  }

  /** An even number of terms doubles the sum of half of them, up to an odd factor. */
  lemma EvenSum(m: nat) returns (d: int)
    ensures d % 2 == 1 && Sum(2 * m) == 2 * (Sum(m) * d)
  {
    SumSplits(m, m);
    assert 2 * m == m + m;
    PowerModFour(m);
    d := 2 * (Power(m) / 4) + 1;
    OddForm(d, Power(m) / 4);
    Collect(Power(m), Sum(m), d);
  }

  lemma Collect(p: int, s: int, d: int)
    requires p + 1 == 2 * d
    ensures p * s + s == 2 * (s * d)
  {
    assert (2 * d - 1) * s + s == 2 * (s * d);
  }

  lemma OddStep(x: int)
    ensures ((FACTOR - 1) * x + STEP) % 2 == 1
  {
    OddForm((FACTOR - 1) * x + STEP, 551757622 * x + 6172);
  }

  lemma OddForm(y: int, t: int)
    requires y == 2 * t + 1
    ensures y % 2 == 1
  {
  }

  /** The geometric sum is divisible by exactly the powers of two that divide the number of its terms. */
  lemma {:induction false} SumHasTheSameTwos(k: nat, n: nat)
    ensures Divides(k, Sum(n)) <==> Divides(k, n)
  {
    if k > 0 {
      SumParity(n);
      if n % 2 == 0 {
        var d := EvenSum(n / 2);
        OddFactorIsIrrelevant(k - 1, Sum(n / 2), d);
        SumHasTheSameTwos(k - 1, n / 2);
      }
    }
  }

  // ---------- the period ----------

  /** `n` steps lead a value back to itself exactly when 2^31 divides `n`. */
  lemma ReturnsExactlyAtThePeriod(x: int, n: nat)
    requires 0 <= x < TWO_31
    ensures Iterate(x, n) == x <==> n % TWO_31 == 0
  {
    IterateIsExact(x, n);
    SameResidue(Exact(x, n), x);
    Displacement(x, n);
    Pow2OfThirty();
    OddStep(x);
    PeriodModulo(31, Sum(n), (FACTOR - 1) * x + STEP, n);
  }

  lemma PeriodModulo(k: nat, s: int, d: int, n: nat)
    requires d % 2 == 1 && s == Sum(n)
    ensures (s * d) % Pow2(k) == 0 <==> n % Pow2(k) == 0
  {
    DividesIsModulo(k, s * d);
    OddFactorIsIrrelevant(k, s, d);
    SumHasTheSameTwos(k, n);
    DividesIsModulo(k, n);
  }

  lemma SameResidue(y: int, x: int)
    requires 0 <= x < TWO_31
    ensures y % TWO_31 == x <==> (y - x) % TWO_31 == 0
  {
    if y % TWO_31 == x {
      Residue(y - x, TWO_31, y / TWO_31, 0);
    }
    if (y - x) % TWO_31 == 0 {
      Residue(y, TWO_31, (y - x) / TWO_31, x);
    }
  }

  lemma {:induction false} IterateSplits(x: int, m: nat, n: nat)
    ensures Iterate(x, m + n) == Iterate(Iterate(x, m), n)
    decreases n
  {
    if n > 0 {
      IterateSplits(x, m, n - 1);
    }
  }

  lemma NoEarlyRepeat(x: int, i: nat, j: nat)
    requires 0 <= x < TWO_31 && i < j < TWO_31
    ensures Iterate(x, i) != Iterate(x, j)
  {
    IterateSplits(x, i, j - i);
    IterateIsExact(x, i);
    Residue(j - i, TWO_31, 0, j - i);
    ReturnsExactlyAtThePeriod(Iterate(x, i), j - i);
  }

  ghost function Orbit(x: int, n: nat): set<int> {
    if n == 0 then {} else Orbit(x, n - 1) + {Iterate(x, n - 1)}
  }

  lemma {:induction false} OrbitMembers(x: int, n: nat, y: int)
    ensures y in Orbit(x, n) <==> exists i :: 0 <= i < n && Iterate(x, i) == y
  {
    if n > 0 {
      OrbitMembers(x, n - 1, y);
      assert y == Iterate(x, n - 1) ==> exists i :: 0 <= i < n && Iterate(x, i) == y;
    }
  }

  lemma {:induction false} OrbitSize(x: int, n: nat)
    requires 0 <= x < TWO_31 && n <= TWO_31
    ensures |Orbit(x, n)| == n
  {
    if n > 0 {
      OrbitSize(x, n - 1);
      OrbitMembers(x, n - 1, Iterate(x, n - 1));
      forall i | 0 <= i < n - 1
        ensures Iterate(x, i) != Iterate(x, n - 1)
      {
        NoEarlyRepeat(x, i, n - 1);
      }
    }
  }

  ghost function Below(n: nat): (s: set<int>)
    ensures forall y :: y in s <==> 0 <= y < n
    ensures |s| == n
  {
    if n == 0 then {} else Below(n - 1) + {n - 1}
  }

  lemma FullSubset<T>(s: set<T>, t: set<T>)
    requires s <= t && |s| == |t|
    ensures s == t
  {
    if s != t {
      var y :| y in t && y !in s;
      SubsetIsSmaller(s, t - {y});
    }
  }

  lemma {:induction false} SubsetIsSmaller<T>(s: set<T>, t: set<T>)
    requires s <= t
    ensures |s| <= |t|
    decreases |s|
  {
    if s != {} {
      var y :| y in s;
      SubsetIsSmaller(s - {y}, t - {y});
    }
  }

  lemma VisitsFromReduced(x: int, y: int) returns (n: nat)
    requires 0 <= x < TWO_31 && 0 <= y < TWO_31
    ensures n < TWO_31 && Iterate(x, n) == y
  {
    var orbit := Orbit(x, TWO_31);
    OrbitSize(x, TWO_31);
    forall z | z in orbit
      ensures z in Below(TWO_31)
    {
      OrbitMembers(x, TWO_31, z);
    }
    FullSubset(orbit, Below(TWO_31));
    OrbitMembers(x, TWO_31, y);
    n :| 0 <= n < TWO_31 && Iterate(x, n) == y;
  }

  /** Only the low 31 bits of a seed matter. */
  lemma {:induction false} SeedModulo(seed: int, n: nat)
    requires n > 0
    ensures Iterate(seed, n) == Iterate(seed % TWO_31, n)
  {
    if n == 1 {
      NextIsModular(seed);
      NextIsModular(seed % TWO_31);
      ReduceFirst(seed);
      assert Iterate(seed, 1) == Next(Iterate(seed, 0)) && Iterate(seed % TWO_31, 1) == Next(Iterate(seed % TWO_31, 0));
    } else {
      SeedModulo(seed, n - 1);
    }
  }

  /** From any seed, the first 2^31 calls return every value below 2^31. */
  lemma VisitsEveryValue(seed: int, y: int)
    requires 0 <= seed < TWO_32 && 0 <= y < TWO_31
    ensures exists n :: 1 <= n <= TWO_31 && Iterate(seed, n) == y
  {
    var x := seed % TWO_31;
    var n := VisitsFromReduced(x, y);
    if n == 0 {
      ReturnsExactlyAtThePeriod(x, TWO_31);
      SeedModulo(seed, TWO_31);
    } else {
      SeedModulo(seed, n);
    }
  }
}
