/** The Lehmer generator of the skip list: multiplication modulo the Mersenne prime 2^31 - 1 by
    shift and add. */
module LehmerRandom {
  const M: nat := 0x7fff_ffff
  const A: nat := 16807
  const TWO_31: nat := 0x8000_0000
  const UINT32_LIMIT: nat := 0x1_0000_0000
  const UINT64_LIMIT: nat := 0x1_0000_0000_0000_0000

  predicate ValidSeed(seed: int) {
    1 <= seed < M
  }

  /** The generator's defining recurrence. */
  function Successor(seed: nat): nat {
    seed * A % M
  }

  /** Multiplication by the inverse of A modulo M. */
  function Predecessor(seed: nat): nat {
    seed * 1407677000 % M
  }

  lemma AddMultiple(r: int, k: int)
    requires 0 <= r < M
    ensures (r + M * k) % M == r
  {
  }

  /** No two seeds share a successor: the previous seed can be recovered. */
  lemma PredecessorOfSuccessor(seed: nat)
    requires seed < M
    ensures Predecessor(Successor(seed)) == seed
  {
    var q := seed * A / M;
    var k := 11017 * seed - 1407677000 * q;
    assert Successor(seed) * 1407677000 == seed + M * k;
    AddMultiple(seed, k);
  }

  lemma SuccessorOfPredecessor(seed: nat)
    requires seed < M
    ensures Successor(Predecessor(seed)) == seed
  {
    var q := seed * 1407677000 / M;
    var k := 11017 * seed - A * q;
    assert Predecessor(seed) * A == seed + M * k;
    AddMultiple(seed, k);
  }

  /** The absorbing values 0 and M are never reached, so the uncorrected sum seed_ == M cannot arise. */
  lemma SuccessorValid(seed: nat)
    requires ValidSeed(seed)
    ensures ValidSeed(Successor(seed))
  {
    PredecessorOfSuccessor(seed);
  }

  /** The recurrence permutes the valid seeds: each is the successor of exactly one. */
  lemma SeedsPermuted(seed: nat)
    requires ValidSeed(seed)
    ensures ValidSeed(Successor(seed)) && ValidSeed(Predecessor(seed))
    ensures forall s: nat :: ValidSeed(s) && Successor(s) == seed <==> s == Predecessor(seed)
  {
    SuccessorValid(seed);
    SuccessorOfPredecessor(seed);
    forall s: nat | ValidSeed(s) && Successor(s) == seed
      ensures s == Predecessor(seed)
    {
      PredecessorOfSuccessor(s);
    }
  }

  /** Folding the high bits onto the low 31 keeps the residue and leaves at most one M to subtract. */
  lemma FoldKeepsResidue(seed: nat)
    requires ValidSeed(seed)
    ensures var product := seed * A;
            var folded := product / TWO_31 + product % TWO_31;
            product < UINT64_LIMIT && folded < 2 * M && folded != M && folded % M == Successor(seed)
  {
    var product := seed * A;
    var high, low := product / TWO_31, product % TWO_31;
    assert product == high + low + M * high;
    var q, r := (high + low) / M, (high + low) % M;
    assert product == r + M * (q + high);
    AddMultiple(r, q + high);
    SuccessorValid(seed);
  }

  class Random {
    var seed: nat

    predicate Valid()
      reads this
    {
      ValidSeed(seed)
    }

    constructor (s: nat)
      requires s < UINT32_LIMIT
      ensures Valid()
      ensures ValidSeed(s % TWO_31) ==> seed == s % TWO_31
      ensures !ValidSeed(s % TWO_31) ==> seed == 1
    {
      seed := s % TWO_31;
      if s % TWO_31 == 0 || s % TWO_31 == M {
        seed := 1;
      }
    }

    method Next() returns (r: nat)
      requires Valid()
      modifies this
      ensures Valid()
      ensures r == seed == Successor(old(seed)) == old(seed) * 16807 % 0x7fff_ffff
    {
      FoldKeepsResidue(seed);
      SuccessorValid(seed);
      var product := seed * A;
      seed := (product / TWO_31 + product % TWO_31) % UINT32_LIMIT;
      if seed > M {
        seed := seed - M;
      }
      r := seed;
    }
  }
}
