/** Node ids as 32 bytes: XOR distance, its lexicographic order, common prefixes and bucket numbers. */
module KademliaIds {
  import opened Arithmetic
  import opened BigEndian
  import opened Bits
  import opened ByteStrings

  type Id = Bytes32

  // ----- distance

  function Xor(a: Id, b: Id): (d: Id) {
    seq(32, i requires 0 <= i < 32 => XorByte(a[i], b[i]))
  }

  function XorByte(x: Byte, y: Byte): Byte {
    XorBasics(x, y, 8);
    assert Pow2(8) == 256;
    XorBits(x, y, 8)
  }

  /** i is the first index at which the ids differ. */
  ghost predicate DiffersAt(a: Id, b: Id, i: int) {
    0 <= i < 32 && a[i] != b[i] && forall j :: 0 <= j < i ==> a[j] == b[j]
  }

  /** The order in which byte arrays are compared. */
  ghost predicate LexLess(a: Id, b: Id) {
    exists i :: DiffersAt(a, b, i) && a[i] < b[i]
  }

  /** The first index from i on at which the ids differ, or 32. */
  function FirstDifference(a: Id, b: Id, i: nat): (r: nat)
    requires i <= 32
    ensures i <= r <= 32
    ensures forall j :: i <= j < r ==> a[j] == b[j]
    ensures r < 32 ==> a[r] != b[r]
    decreases 32 - i
  {
    if i == 32 || a[i] != b[i] then i else FirstDifference(a, b, i + 1)
  }

  lemma FirstDiffers(a: Id, b: Id)
    requires a != b
    ensures FirstDifference(a, b, 0) < 32 && DiffersAt(a, b, FirstDifference(a, b, 0))
  {
    assert FirstDifference(a, b, 0) == 32 ==> a == b;
  }

  /** The order is total on ids and strict. */
  lemma LexTotal(a: Id, b: Id)
    ensures a == b || LexLess(a, b) || LexLess(b, a)
    ensures !(LexLess(a, b) && LexLess(b, a)) && !LexLess(a, a)
  {
    if a != b {
      FirstDiffers(a, b);
      assert DiffersAt(b, a, FirstDifference(a, b, 0));
    }
  }

  lemma LexTransitive(a: Id, b: Id, c: Id)
    requires LexLess(a, b) && LexLess(b, c)
    ensures LexLess(a, c)
  {
    var i :| DiffersAt(a, b, i) && a[i] < b[i];
    var j :| DiffersAt(b, c, j) && b[j] < c[j];
    var m := if i < j then i else j;
    assert DiffersAt(a, c, m);
  }

  /** Different ids are at different distances from any target. */
  lemma DistanceInjective(a: Id, b: Id, target: Id)
    requires Xor(a, target) == Xor(b, target)
    ensures a == b
  {
    assert Pow2(8) == 256;
    forall i | 0 <= i < 32
      ensures a[i] == b[i]
    {
      assert Xor(a, target)[i] == Xor(b, target)[i];
      XorInjective(a[i], b[i], target[i], 8);
    }
  }

  /** The order of byte arrays is the order of the numbers they spell. */
  lemma LexIsNumber(a: Id, b: Id)
    ensures LexLess(a, b) <==> Number(a) < Number(b)
  {
    LexTotal(a, b);
    if LexLess(a, b) {
      LessNumber(a, b);
    } else if LexLess(b, a) {
      LessNumber(b, a);
    }
  }

  lemma LessNumber(a: Id, b: Id)
    requires LexLess(a, b)
    ensures Number(a) < Number(b)
  {
    var i :| DiffersAt(a, b, i) && a[i] < b[i];
    SamePrefix(a, b, i);
    ValueBetween(a, i + 1, |a|);
    ValueBetween(b, i + 1, |b|);
    Monotone(Value(a, i + 1) + 1, Value(b, i + 1), Pow2(8 * (31 - i)));
  }

  lemma {:induction false} SamePrefix(a: Id, b: Id, n: nat)
    requires n <= 32 && forall j :: 0 <= j < n ==> a[j] == b[j]
    ensures Value(a, n) == Value(b, n)
  {
    if n > 0 {
      SamePrefix(a, b, n - 1);
    }
  }

  /** An id is at distance zero from itself and from no other. */
  lemma ZeroDistanceIff(a: Id, b: Id)
    ensures Number(Xor(a, b)) == 0 <==> a == b
  {
    ZeroPrefix(Xor(a, b), 32);
    assert Number(Xor(a, b)) == Value(Xor(a, b), 32);
    assert Pow2(8) == 256;
    forall i | 0 <= i < 32
      ensures Xor(a, b)[i] == 0 <==> a[i] == b[i]
    {
      XorBasics(a[i], b[i], 8);
    }
  }

  // ----- common prefixes and bucket numbers

  predicate Bit(a: Id, n: nat)
    requires n < 256
  {
    BitAt(a[n / 8], n % 8, 8)
  }

  /** The first bit from n on at which two ids differ, or 256. */
  function CommonPrefixFrom(a: Id, b: Id, n: nat): (r: nat)
    requires n <= 256
    ensures n <= r <= 256
    ensures forall j :: n <= j < r ==> Bit(a, j) == Bit(b, j)
    ensures r < 256 ==> Bit(a, r) != Bit(b, r)
    decreases 256 - n
  {
    if n == 256 || Bit(a, n) != Bit(b, n) then n else CommonPrefixFrom(a, b, n + 1)
  }

  /** The number of leading bits on which two ids agree. */
  function CommonPrefix(a: Id, b: Id): nat {
    CommonPrefixFrom(a, b, 0)
  }

  /** The bucket of an id: eight per byte, counted inside the byte from the least significant bit;
      the local id itself falls into bucket 0. */
  function BucketIndex(local: Id, target: Id): (r: nat)
    ensures r < 256
  {
    var i := FirstDifference(local, target, 0);
    if i == 32 then 0
    else
      assert ByteZeros(local, target, i) < 8 by { ByteZerosBelow(local, target, i); }
      i * 8 + (7 - ByteZeros(local, target, i))
  }

  /** The leading zeros of the distance byte at index i. */
  function ByteZeros(a: Id, b: Id, i: nat): nat
    requires i < 32
  {
    LeadingZeros(XorByte(a[i], b[i]), 8)
  }

  lemma ByteZerosBelow(a: Id, b: Id, i: nat)
    requires i < 32 && a[i] != b[i]
    ensures ByteZeros(a, b, i) < 8
  {
    assert Pow2(8) == 256;
    LeadingZerosOfXor(a[i], b[i], 0, 8);
  }

  lemma BitInByte(a: Id, b: Id, i: nat, j: nat)
    requires i < 32 && j < 8 && a[i] != b[i] && j <= ByteZeros(a, b, i)
    ensures Bit(a, i * 8 + j) == Bit(b, i * 8 + j) <==> j < ByteZeros(a, b, i)
  {
    assert Pow2(8) == 256;
    LeadingZerosOfXor(a[i], b[i], j, 8);
    assert (i * 8 + j) / 8 == i && (i * 8 + j) % 8 == j;
  }

  lemma PrefixIs(a: Id, b: Id, n: nat)
    requires n < 256 && Bit(a, n) != Bit(b, n)
    requires forall j :: 0 <= j < n ==> Bit(a, j) == Bit(b, j)
    ensures CommonPrefix(a, b) == n
  {
  }

  /** The first differing byte determines the common prefix. */
  lemma PrefixFromByte(a: Id, b: Id, i: nat)
    requires DiffersAt(a, b, i)
    ensures ByteZeros(a, b, i) < 8 && CommonPrefix(a, b) == i * 8 + ByteZeros(a, b, i)
  {
    ByteZerosBelow(a, b, i);
    var z := ByteZeros(a, b, i);
    forall j | 0 <= j < i * 8 + z
      ensures Bit(a, j) == Bit(b, j)
    {
      if j < i * 8 {
        assert j / 8 < i;
      } else {
        BitInByte(a, b, i, j - i * 8);
      }
    }
    BitInByte(a, b, i, z);
    PrefixIs(a, b, i * 8 + z);
  }

  /** The bucket mirrors the common prefix inside its byte. */
  lemma PrefixAndBucket(local: Id, target: Id) returns (i: nat, z: nat)
    requires local != target
    ensures i == FirstDifference(local, target, 0) && DiffersAt(local, target, i)
    ensures z == ByteZeros(local, target, i) < 8
    ensures CommonPrefix(local, target) == i * 8 + z && BucketIndex(local, target) == i * 8 + (7 - z)
  {
    FirstDiffers(local, target);
    i := FirstDifference(local, target, 0);
    z := ByteZeros(local, target, i);
    PrefixFromByte(local, target, i);
  }

  /** Two ids other than the local one share a bucket exactly when they agree with it on equally many leading bits. */
  lemma SameBucketIff(local: Id, a: Id, b: Id)
    requires a != local && b != local
    ensures BucketIndex(local, a) == BucketIndex(local, b) <==> CommonPrefix(local, a) == CommonPrefix(local, b)
  {
    var i, y := PrefixAndBucket(local, a);
    var j, z := PrefixAndBucket(local, b);
    Digits(i, y, j, z);
  }

  lemma Digits(i: nat, y: nat, j: nat, z: nat)
    requires y < 8 && z < 8
    ensures i * 8 + (7 - y) == j * 8 + (7 - z) <==> i == j && y == z
    ensures i * 8 + y == j * 8 + z <==> i == j && y == z
  {
  }

  /** Different ids of one bucket are strictly closer to each other than either is to the local id. */
  lemma BucketMatesAreCloser(local: Id, a: Id, b: Id)
    requires a != local && b != local && a != b
    requires BucketIndex(local, a) == BucketIndex(local, b)
    ensures LexLess(Xor(a, b), Xor(a, local)) && LexLess(Xor(a, b), Xor(b, local))
  {
    Closer(local, a, b);
    Closer(local, b, a);
    XorCommutes(a, b);
  }

  lemma XorCommutes(a: Id, b: Id)
    ensures Xor(a, b) == Xor(b, a)
  {
    assert Pow2(8) == 256;
    forall i | 0 <= i < 32
      ensures Xor(a, b)[i] == Xor(b, a)[i]
    {
      XorBasics(a[i], b[i], 8);
    }
  }

  lemma Closer(local: Id, a: Id, b: Id)
    requires a != local && b != local
    requires BucketIndex(local, a) == BucketIndex(local, b)
    ensures LexLess(Xor(a, b), Xor(a, local))
  {
    var i, y := PrefixAndBucket(local, a);
    var j, z := PrefixAndBucket(local, b);
    Digits(i, y, j, z);
    assert Pow2(8) == 256;
    CloserBits(local[i], a[i], b[i], 8);
    assert DiffersAt(Xor(a, b), Xor(a, local), i);
  }
}
