/** util/random.h: a Lehmer generator whose reduction modulo 2^31 - 1 needs no division. */
module RandomNumbers {
  import opened Arithmetic

  const M: nat := 2147483647
  const A: nat := 16807
  const INVERSE: nat := 1407677000 // of A, modulo M

  /** Seeds that the generator may be in. */
  predicate IsSeed(s: int) {
    1 <= s < M
  }

  function NextSeed(s: nat): nat {
    s * A % M
  }

  function PreviousSeed(s: nat): nat {
    s * INVERSE % M
  }

  class Random {
    var seed: nat

    ghost predicate Valid()
      reads this
    {
      IsSeed(seed)
    }

    constructor (s: nat)
      requires s < 0x1_0000_0000
      ensures Valid()
      ensures seed == if IsSeed(s % 0x8000_0000) then s % 0x8000_0000 else 1
    {
      seed := s % 0x8000_0000;
      new;
      if seed == 0 || seed == M {
        seed := 1;
      }
    }

    method Next() returns (r: nat)
      requires Valid()
      modifies this
      ensures Valid()
      ensures r == seed == NextSeed(old(seed))
    {
      var product := seed * A;
      ProductReduces(seed);
      seed := product / 0x8000_0000 + product % 0x8000_0000;
      if seed > M {
        seed := seed - M;
      }
      return seed;
    }
  }

  // ---- The step ----

  /** The first numbers after seed 1. */
  lemma FirstNumbers()
    ensures NextSeed(1) == 16807 && NextSeed(16807) == 282475249 && NextSeed(282475249) == 1622650073
  {
  }

  lemma InverseOfA(s: nat)
    requires s < M
    ensures s * A * INVERSE % M == s
  {
    assert A * INVERSE == M * 11017 + 1;
    assert s * A * INVERSE == M * (s * 11017) + s;
    ModOfSum(M, s * 11017, s);
  }

  lemma PreviousUndoesNext(s: nat)
    requires IsSeed(s)
    ensures IsSeed(NextSeed(s)) && PreviousSeed(NextSeed(s)) == s
  {
    ModProduct(M, s * A, INVERSE);
    InverseOfA(s);
  }

  lemma NextUndoesPrevious(s: nat)
    requires IsSeed(s)
    ensures IsSeed(PreviousSeed(s)) && NextSeed(PreviousSeed(s)) == s
  {
    ModProduct(M, s * INVERSE, A);
    InverseOfA(s);
    assert s * INVERSE * A == s * A * INVERSE;
  }

  /** Adding the two halves of the product reduces it; the sum is never M itself, so that the
      comparison `seed_ > M` is enough. */
  lemma ProductReduces(s: nat)
    requires IsSeed(s)
    ensures var product := s * A;
      var sum := product / 0x8000_0000 + product % 0x8000_0000;
      && sum != M && sum < 2 * M
      && (if sum > M then sum - M else sum) == NextSeed(s)
    ensures IsSeed(NextSeed(s))
  {
    PreviousUndoesNext(s);
    var product := s * A;
    var q, r := product / 0x8000_0000, product % 0x8000_0000;
    assert product == M * q + (q + r);
    ModOfMultiple(M, q, q + r);
    assert q <= A;
    if q + r > M {
      ModOfSum(M, 1, q + r - M);
    } else if q + r < M {
      ModOfSum(M, 0, q + r);
    } else {
      ModOfSum(M, 1, 0);
    }
  }

  // ---- Whole runs ----

  function SeedAfter(s: nat, n: nat): nat {
    if n == 0 then s else NextSeed(SeedAfter(s, n - 1))
  }

  /** From a good seed the generator never leaves the good seeds, and the n-th number is a power. */
  lemma {:induction false} SeedStaysGood(s: nat, n: nat)
    requires IsSeed(s)
    ensures IsSeed(SeedAfter(s, n))
    ensures SeedAfter(s, n) == s * Pow(A, n) % M
  {
    if n == 0 {
      ModOfSum(M, 0, s);
    } else {
      SeedStaysGood(s, n - 1);
      PreviousUndoesNext(SeedAfter(s, n - 1));
      ModProduct(M, s * Pow(A, n - 1), A);
      assert s * Pow(A, n - 1) * A == s * (A * Pow(A, n - 1));
    }
  }

  /** Runs from different seeds differ at every step. */
  lemma {:induction false} RunsStayApart(s: nat, t: nat, n: nat)
    requires IsSeed(s) && IsSeed(t) && s != t
    ensures SeedAfter(s, n) != SeedAfter(t, n)
  {
    if n != 0 {
      RunsStayApart(s, t, n - 1);
      SeedStaysGood(s, n - 1);
      SeedStaysGood(t, n - 1);
      PreviousUndoesNext(SeedAfter(s, n - 1));
      PreviousUndoesNext(SeedAfter(t, n - 1));
    }
  }
}
