/**
  The bucket index of a key: Go's `uint(key % size)`.

  Go's `%` truncates toward zero, so the remainder takes the sign of the
  dividend, and the conversion to `uint` reinterprets a negative remainder
  as a 64-bit unsigned word. Both steps are written out here, because
  Dafny's own `%` is Euclidean and its integers are unbounded.
 */
module Hashing {

  /** 2^64: the range of Go's `uint` on a 64-bit platform. */
  const WordModulus: int := 0x1_0000_0000_0000_0000

  /** The largest value of Go's `int` on a 64-bit platform. */
  const MaxInt: int := 0x7fff_ffff_ffff_ffff

  /**
    Go's `a % b` for a positive divisor: truncated division, so the result
    has the sign of `a`. It lies in the same residue class as Dafny's
    Euclidean `a % b`.
   */
  function GoRem(a: int, b: int): (r: int)
    requires 0 < b
    ensures -b < r < b
    ensures r != 0 ==> (r > 0 <==> a > 0)
    ensures r == a % b || r == a % b - b
  {
    if a >= 0 then
      assert a == 0 ==> a % b == 0;
      a % b
    else
      var m := (-a) % b;
      NegativeResidue(a, b, m);
      -m
  }

  /** The truncated remainder of a negative `a` against the Euclidean one. */
  lemma NegativeResidue(a: int, b: int, m: int)
    requires a < 0 < b && m == (-a) % b
    ensures 0 <= m < b
    ensures m == 0 ==> a % b == 0
    ensures m != 0 ==> a % b == b - m
  {
    var q := (-a) / b;
    assert -a == q * b + m;
    assert (-q) * b == -(q * b);
    if m == 0 {
      EuclideanUnique(a, b, -q, 0);
    } else {
      assert (-q - 1) * b == (-q) * b - b;
      EuclideanUnique(a, b, -q - 1, b - m);
    }
  }

  /** `hashFunction(key, size)` of hashmap.go: the truncated remainder, as a 64-bit word. */
  function HashFunction(key: int, size: int): (r: nat)
    requires 0 < size <= MaxInt
    ensures r < WordModulus
    ensures r < size <==> GoRem(key, size) >= 0
  {
    var g := GoRem(key, size);
    if g < 0 then
      EuclideanUnique(g, WordModulus, -1, g + WordModulus);
      g % WordModulus
    else
      EuclideanUnique(g, WordModulus, 0, g);
      g % WordModulus
  }

  /** For a non-negative key the hash is the ordinary remainder, a valid bucket index. */
  lemma HashIsBucketIndex(key: int, size: int)
    requires 0 <= key && 0 < size <= MaxInt
    ensures HashFunction(key, size) == key % size
    ensures HashFunction(key, size) < size
  {
  }

  /**
    The hash lands inside the bucket slice exactly when the key is
    non-negative or a multiple of the size; any other negative key wraps
    around to a huge `uint` and the slice index in Insert, Get and Delete
    is out of range. Whenever it is in range it agrees with Dafny's `%`.
   */
  lemma HashInRangeIff(key: int, size: int)
    requires 0 < size <= MaxInt
    ensures HashFunction(key, size) < size <==> (0 <= key || key % size == 0)
    ensures HashFunction(key, size) < size ==> HashFunction(key, size) == key % size
  {
  }

  /** Dafny's `%` is determined by any Euclidean decomposition. */
  lemma EuclideanUnique(a: int, b: int, q: int, r: int)
    requires 0 < b && 0 <= r < b && a == q * b + r
    ensures a % b == r
  {
    var q0, r0 := a / b, a % b;
    assert a == q0 * b + r0;
    assert (q - q0) * b == r0 - r;
    if q > q0 {
      MulAtLeast(q - q0, b);
    } else if q < q0 {
      MulAtLeast(q0 - q, b);
    }
  }

  lemma MulAtLeast(k: int, b: int)
    requires 1 <= k && 0 < b
    ensures k * b >= b
    decreases k
  {
    if k > 1 {
      MulAtLeast(k - 1, b);
      assert k * b == (k - 1) * b + b;
    }
  }
}
