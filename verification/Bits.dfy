/** Numbers of n bits: and, exclusive or, leading zeros, and what they do to the single bits. */
module Bits {
  import opened Arithmetic

  /** Bitwise and of the low n bits. */
  function AndBits(x: nat, y: nat, n: nat): nat {
    if n == 0 then 0 else 2 * AndBits(x / 2, y / 2, n - 1) + if x % 2 == 1 && y % 2 == 1 then 1 else 0
  }

  /** Bitwise exclusive or of the low n bits. */
  function XorBits(x: nat, y: nat, n: nat): nat {
    if n == 0 then 0 else 2 * XorBits(x / 2, y / 2, n - 1) + if x % 2 == y % 2 then 0 else 1
  }

  /** Leading zero bits of an n-bit number. */
  function LeadingZeros(x: nat, n: nat): (z: nat)
    ensures z <= n
  {
    if x == 0 || n == 0 then n else LeadingZeros(x / 2, n - 1)
  }

  /** Bit j of an n-bit number, counted from the most significant one. */
  predicate BitAt(x: nat, j: nat, n: nat)
    requires j < n
    decreases n
  {
    if j == n - 1 then x % 2 == 1 else BitAt(x / 2, j, n - 1)
  }

  lemma {:induction false} XorBasics(x: nat, y: nat, n: nat)
    requires x < Pow2(n) && y < Pow2(n)
    ensures XorBits(x, y, n) < Pow2(n)
    ensures XorBits(x, y, n) == XorBits(y, x, n)
    ensures XorBits(x, y, n) == 0 <==> x == y
  {
    if n > 0 {
      XorBasics(x / 2, y / 2, n - 1);
    }
  }

  /** Bit by bit, the exclusive or has the bits at which the numbers differ. */
  lemma {:induction false} XorBitAt(x: nat, y: nat, j: nat, n: nat)
    requires j < n
    ensures BitAt(XorBits(x, y, n), j, n) <==> BitAt(x, j, n) != BitAt(y, j, n)
    decreases n
  {
    var z := XorBits(x, y, n);
    assert z % 2 == (if x % 2 == y % 2 then 0 else 1) && z / 2 == XorBits(x / 2, y / 2, n - 1);
    if j < n - 1 {
      XorBitAt(x / 2, y / 2, j, n - 1);
    }
  }

  lemma {:induction false} XorInjective(x: nat, y: nat, t: nat, n: nat)
    requires x < Pow2(n) && y < Pow2(n)
    requires XorBits(x, t, n) == XorBits(y, t, n)
    ensures x == y
  {
    if n > 0 {
      XorInjective(x / 2, y / 2, t / 2, n - 1);
    }
  }

  /** Different numbers agree on exactly the leading bits on which their XOR is zero, and differ at the next one. */
  lemma {:induction false} LeadingZerosOfXor(x: nat, y: nat, j: nat, n: nat)
    requires x < Pow2(n) && y < Pow2(n) && x != y && j <= LeadingZeros(XorBits(x, y, n), n)
    ensures LeadingZeros(XorBits(x, y, n), n) < n
    ensures BitAt(x, j, n) == BitAt(y, j, n) <==> j < LeadingZeros(XorBits(x, y, n), n)
    decreases n
  {
    XorBasics(x, y, n);
    XorBasics(x / 2, y / 2, n - 1);
    assert XorBits(x, y, n) / 2 == XorBits(x / 2, y / 2, n - 1);
    if x / 2 != y / 2 {
      LeadingZerosOfXor(x / 2, y / 2, j, n - 1);
    } else if j < n - 1 {
      SameBits(x / 2, y / 2, j, n - 1);
    }
  }

  lemma SameBits(x: nat, y: nat, j: nat, n: nat)
    requires x == y && j < n
    ensures BitAt(x, j, n) == BitAt(y, j, n)
  {
  }

  /** Two numbers whose highest difference from a third is at the same bit are closer to each other. */
  lemma {:induction false} CloserBits(l: nat, a: nat, b: nat, n: nat)
    requires l < Pow2(n) && a < Pow2(n) && b < Pow2(n) && l != a && l != b
    requires LeadingZeros(XorBits(l, a, n), n) == LeadingZeros(XorBits(l, b, n), n)
    ensures XorBits(a, b, n) < XorBits(a, l, n)
  {
    var p := HalfZeros(l, a, n);
    var q := HalfZeros(l, b, n);
    HalvesDiffer(l, a, n, p);
    HalvesDiffer(l, b, n, q);
    if p < n - 1 {
      CloserBits(l / 2, a / 2, b / 2, n - 1);
    } else {
      assert a == b;
      XorBasics(a, b, n);
      XorBasics(a, l, n);
    }
  }

  lemma HalvesDiffer(l: nat, a: nat, n: nat, z: nat)
    requires n > 0 && l < Pow2(n) && a < Pow2(n) && z == LeadingZeros(XorBits(l / 2, a / 2, n - 1), n - 1)
    ensures z < n - 1 <==> l / 2 != a / 2
  {
    XorBasics(l / 2, a / 2, n - 1);
    LeadingZerosBelow(XorBits(l / 2, a / 2, n - 1), n - 1);
  }

  /** The XOR of different numbers has the leading zeros of the XOR of their halves. */
  lemma HalfZeros(x: nat, y: nat, n: nat) returns (z: nat)
    requires x < Pow2(n) && y < Pow2(n) && x != y
    ensures n > 0 && z == LeadingZeros(XorBits(x / 2, y / 2, n - 1), n - 1) == LeadingZeros(XorBits(x, y, n), n)
  {
    XorBasics(x, y, n);
    assert XorBits(x, y, n) / 2 == XorBits(x / 2, y / 2, n - 1);
    z := LeadingZeros(XorBits(x, y, n), n);
  }

  lemma {:induction false} LeadingZerosBelow(x: nat, n: nat)
    requires x < Pow2(n)
    ensures LeadingZeros(x, n) == n <==> x == 0
  {
    if x != 0 && n > 0 {
      LeadingZerosBelow(x / 2, n - 1);
    }
  }

  /** Bit by bit, and has the bits that both numbers have. */
  lemma {:induction false} AndBitAt(x: nat, y: nat, j: nat, n: nat)
    requires j < n
    ensures BitAt(AndBits(x, y, n), j, n) <==> BitAt(x, j, n) && BitAt(y, j, n)
    decreases n
  {
    var z := AndBits(x, y, n);
    assert z % 2 == (if x % 2 == 1 && y % 2 == 1 then 1 else 0) && z / 2 == AndBits(x / 2, y / 2, n - 1);
    if j < n - 1 {
      AndBitAt(x / 2, y / 2, j, n - 1);
    }
  }

  /** The bits of y are among those of x. */
  ghost predicate Includes(x: nat, y: nat, n: nat) {
    forall j :: 0 <= j < n && BitAt(y, j, n) ==> BitAt(x, j, n)
  }

  lemma IncludesStep(x: nat, y: nat, n: nat)
    requires n > 0
    ensures Includes(x, y, n) <==> Includes(x / 2, y / 2, n - 1) && (y % 2 == 1 ==> x % 2 == 1)
  {
    assert BitAt(x, n - 1, n) == (x % 2 == 1) && BitAt(y, n - 1, n) == (y % 2 == 1);
    var a, b, m := x / 2, y / 2, n - 1;
    if Includes(x, y, n) {
      forall j | 0 <= j < m && BitAt(b, j, m)
        ensures BitAt(a, j, m)
      {
        assert BitAt(y, j, n);
      }
    }
    if Includes(a, b, m) && (y % 2 == 1 ==> x % 2 == 1) {
      forall j | 0 <= j < n && BitAt(y, j, n)
        ensures BitAt(x, j, n)
      {
        assert j < m ==> BitAt(b, j, m);
      }
    }
  }

  /** Masking with x keeps all of y exactly if x has all the bits of y. */
  lemma {:induction false} AndIsAllIff(x: nat, y: nat, n: nat)
    requires y < Pow2(n)
    ensures AndBits(x, y, n) == y <==> Includes(x, y, n)
  {
    if n > 0 {
      AndIsAllIff(x / 2, y / 2, n - 1);
      IncludesStep(x, y, n);
    }
  }
}
