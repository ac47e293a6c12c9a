/** 32 bytes read as a big-endian number. */
module BigEndian {
  import opened Arithmetic
  import opened ByteStrings

  /** The number in the first n bytes. */
  function Value(hash: Bytes32, n: nat): nat
    requires n <= |hash|
  {
    if n == 0 then 0 else Value(hash, n - 1) * 256 + hash[n - 1]
  }

  function Number(hash: Bytes32): nat {
    Value(hash, |hash|)
  }

  /** The first m bytes fix the number up to the weight of the rest. */
  lemma {:induction false} ValueBetween(hash: Bytes32, m: nat, n: nat)
    requires m <= n <= |hash|
    ensures Value(hash, m) * Pow2(8 * (n - m)) <= Value(hash, n) < (Value(hash, m) + 1) * Pow2(8 * (n - m))
  {
    if m < n {
      ValueBetween(hash, m, n - 1);
      Byte256(8 * (n - 1 - m));
      Scaled(Value(hash, m), Pow2(8 * (n - 1 - m)), Value(hash, n - 1), hash[n - 1]);
    }
  }

  lemma Byte256(k: nat)
    ensures Pow2(k + 8) == 256 * Pow2(k)
  {
    Pow2Sum(8, k);
    assert Pow2(8) == 256;
  }

  lemma Scaled(v: nat, p: nat, x: nat, b: nat)
    requires v * p <= x < (v + 1) * p && b < 256
    ensures v * (256 * p) <= x * 256 + b < (v + 1) * (256 * p)
  {
    assert v * (256 * p) == 256 * (v * p) && (v + 1) * (256 * p) == 256 * ((v + 1) * p);
  }

  lemma {:induction false} ZeroPrefix(hash: Bytes32, n: nat)
    requires n <= 32
    ensures Value(hash, n) == 0 <==> forall j :: 0 <= j < n ==> hash[j] == 0
  {
    if n > 0 {
      ZeroPrefix(hash, n - 1);
    }
  }
}
