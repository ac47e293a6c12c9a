/** The difficulty test on block hashes, bit by bit, and the number it compares. */
module Difficulty {
  import opened Arithmetic
  import opened BigEndian
  import opened Bits
  import opened ByteStrings
  import opened Wrappers

  /** The bits of a byte that 0xFF >> r leaves out. */
  function OutsideMask(r: nat): nat {
    255 - 255 / Pow2(r)
  }

  /** Meeting a difficulty: the number is below 2^(256 - difficulty); beyond 256 only zero will do. */
  predicate Meets(hash: Bytes32, difficulty: nat) {
    if difficulty <= 256 then Number(hash) < Pow2(256 - difficulty) else Number(hash) == 0
  }

  /** The loop's answer: none if it reads past the last byte. */
  method MeetsDifficulty(hash: Bytes32, difficulty: nat) returns (r: Option<bool>)
    ensures r == None <==> difficulty >= 264 && Number(hash) == 0
    ensures r.Some? ==> r == Some(Meets(hash, difficulty))
  {
    var zeros := difficulty / 8;
    var remainder := difficulty % 8;
    for i := 0 to zeros
      invariant i <= 32 && Value(hash, i) == 0
    {
      if i >= 32 {
        return None;
      }
      if hash[i] != 0 {
        NonZeroPrefix(hash, i + 1, difficulty);
        return Some(false);
      }
    }
    if remainder > 0 && zeros < 32 {
      MaskTest(hash[zeros], remainder);
      DecidedAt(hash, zeros, remainder);
      return Some(AndBits(hash[zeros], OutsideMask(remainder), 8) == 0);
    }
    if zeros < 32 {
      DecidedAfter(hash, zeros);
    }
    return Some(true);
  }

  // ----- the mask

  /** The top r of n bits are clear exactly in the numbers below 2^(n-r). */
  lemma {:induction false} TopBits(x: nat, r: nat, n: nat)
    requires r <= n && x < Pow2(n)
    ensures Pow2(n - r) <= Pow2(n)
    ensures AndBits(x, Pow2(n) - Pow2(n - r), n) == 0 <==> x < Pow2(n - r)
  {
    if n == r {
      AllBits(x, n);
    } else {
      TopBits(x / 2, r, n - 1);
      assert Pow2(n) - Pow2(n - r) == 2 * (Pow2(n - 1) - Pow2(n - 1 - r));
    }
  }

  lemma {:induction false} AllBits(x: nat, n: nat)
    requires x < Pow2(n)
    ensures AndBits(x, Pow2(n) - 1, n) == x
  {
    if n > 0 {
      AllBits(x / 2, n - 1);
      assert (Pow2(n) - 1) / 2 == Pow2(n - 1) - 1;
    }
  }

  lemma MaskTest(x: Byte, r: nat)
    requires 0 < r < 8
    ensures AndBits(x, OutsideMask(r), 8) == 0 <==> x < Pow2(8 - r)
  {
    assert Pow2(8) == 256;
    MaskIsTopBits(r);
    TopBits(x, r, 8);
  }

  lemma MaskIsTopBits(r: nat)
    requires 0 < r < 8
    ensures OutsideMask(r) == Pow2(8) - Pow2(8 - r)
  {
    assert Pow2(8) == 256;
    Pow2Sum(r, 8 - r);
    MaskValue(Pow2(r), Pow2(8 - r));
  }

  lemma MaskValue(p: nat, q: nat)
    requires p * q == 256 && p > 1
    ensures 255 / p == q - 1
  {
    QuotientIs(255, p, q - 1);
  }

  // ----- the number

  /** A non-zero byte among those that have to be zero makes the number too large. */
  lemma NonZeroPrefix(hash: Bytes32, m: nat, difficulty: nat)
    requires m <= 32 && 8 * m <= difficulty && Value(hash, m) >= 1
    ensures Number(hash) >= 1
    ensures difficulty <= 256 ==> Number(hash) >= Pow2(256 - difficulty)
  {
    ValueBetween(hash, m, |hash|);
    Monotone(1, Value(hash, m), Pow2(8 * (32 - m)));
    if difficulty <= 256 {
      Pow2Monotone(256 - difficulty, 8 * (32 - m));
    }
  }

  /** After zero bytes, the next byte's top bits decide. */
  lemma DecidedAt(hash: Bytes32, z: nat, r: nat)
    requires z < 32 && 0 < r < 8 && Value(hash, z) == 0
    ensures Number(hash) < Pow2(256 - (8 * z + r)) <==> hash[z] < Pow2(8 - r)
  {
    ValueBetween(hash, z + 1, |hash|);
    Pow2Sum(8 - r, 8 * (31 - z));
    var v: nat, p: nat, q: nat := Value(hash, z + 1), Pow2(8 * (31 - z)), Pow2(8 - r);
    assert v == hash[z];
    if v < q {
      Monotone(v + 1, q, p);
    } else {
      Monotone(q, v, p);
    }
  }

  lemma DecidedAfter(hash: Bytes32, z: nat)
    requires z <= 32 && Value(hash, z) == 0
    ensures Number(hash) < Pow2(256 - 8 * z)
  {
    ValueBetween(hash, z, |hash|);
  }

  /** Meeting a difficulty implies meeting every lower one. */
  lemma MeetsLower(hash: Bytes32, difficulty: nat, lower: nat)
    requires Meets(hash, difficulty) && lower <= difficulty
    ensures Meets(hash, lower)
  {
    if difficulty <= 256 {
      Pow2Monotone(256 - difficulty, 256 - lower);
    }
  }

  /** The hash of zeros, and no other, meets every difficulty: mining that starts from it stops at once. */
  lemma MeetsEverythingIff(hash: Bytes32)
    ensures (forall difficulty: nat :: Meets(hash, difficulty)) <==> hash == Zeros()
  {
    ZeroPrefix(hash, |hash|);
    if hash == Zeros() {
      forall difficulty: nat
        ensures Meets(hash, difficulty)
      {
      }
    } else {
      assert !Meets(hash, 256) by {
        assert Pow2(0) == 1;
        assert exists j :: 0 <= j < 32 && hash[j] != 0;
      }
    }
  }
}
