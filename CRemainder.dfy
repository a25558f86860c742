/**
 * C's integer division and remainder, which truncate toward zero (Dafny's `/` and `%`
 * are Euclidean), and the bucket index the hash map derives from a hash value.
 */
module CRemainder {

  function Abs(a: int): nat
  {
    if a < 0 then -a else a
  }

  /** C's `a / b`: the quotient rounded toward zero. */
  function TruncDiv(a: int, b: int): int
    requires b != 0
  {
    if a >= 0 && b > 0 then a / b
    else if a < 0 && b > 0 then -((-a) / b)
    else if a >= 0 then -(a / -b)
    else (-a) / (-b)
  }

  /** C's `a % b`, defined by `a == (a / b) * b + a % b`. */
  function TruncRem(a: int, b: int): int
    requires b != 0
  {
    a - TruncDiv(a, b) * b
  }

  /** A positive multiple of a positive number is at least that number. */
  lemma MultipleAtLeast(k: int, c: int)
    requires k >= 1 && c > 0
    ensures k * c >= c
  {
    assert k * c == (k - 1) * c + c;
    assert (k - 1) * c >= 0;
  }

  /** Negating one factor negates the product. */
  lemma NegateFactor(q: int, b: int)
    ensures (-q) * b == -(q * b) && q * (-b) == -(q * b) && (-q) * (-b) == q * b
  {
  }

  /** The remainder is smaller than the divisor in magnitude and takes the sign of the dividend. */
  lemma TruncRemBounds(a: int, b: int)
    requires b != 0
    ensures Abs(TruncRem(a, b)) < Abs(b)
    ensures a >= 0 ==> TruncRem(a, b) >= 0
    ensures a <= 0 ==> TruncRem(a, b) <= 0
  {
    if a >= 0 && b > 0 {
      assert TruncRem(a, b) == a % b;
    } else if a < 0 && b > 0 {
      RemainderNegativeDividend(a, b);
    } else if a >= 0 {
      RemainderNegativeDivisor(a, b);
    } else {
      RemainderBothNegative(a, b);
    }
  }

  lemma RemainderNegativeDividend(a: int, b: int)
    requires a < 0 && b > 0
    ensures TruncRem(a, b) == -((-a) % b)
  {
    var q := (-a) / b;
    assert TruncDiv(a, b) == -q;
    NegateFactor(q, b);
  }

  lemma RemainderNegativeDivisor(a: int, b: int)
    requires a >= 0 && b < 0
    ensures TruncRem(a, b) == a % (-b)
  {
    var q := a / (-b);
    assert TruncDiv(a, b) == -q;
    NegateFactor(q, b);
    NegateFactor(q, -b);
  }

  lemma RemainderBothNegative(a: int, b: int)
    requires a < 0 && b < 0
    ensures TruncRem(a, b) == -((-a) % (-b))
  {
    var q := (-a) / (-b);
    assert TruncDiv(a, b) == q;
    NegateFactor(q, -b);
  }

  /** Euclidean remainder is determined by any decomposition with a remainder in [0, c). */
  lemma ModUnique(h: int, c: int, q: int, r: int)
    requires c > 0 && 0 <= r < c && h == q * c + r
    ensures h % c == r
  {
    var q', r' := h / c, h % c;
    assert h == q' * c + r' && 0 <= r' < c;
    assert q * c - q' * c == (q - q') * c;
    if q > q' {
      MultipleAtLeast(q - q', c);
    } else if q < q' {
      assert q' * c - q * c == (q' - q) * c;
      MultipleAtLeast(q' - q, c);
    }
  }

  /**
   * The bucket a hash value selects in a table of `capacity` buckets: the C remainder,
   * moved up by `capacity` when it is negative. The correction makes it the mathematical
   * (Euclidean) remainder, so it is a valid bucket for negative hash values too.
   */
  function BucketIndex(hash: int, capacity: int): (r: int)
    requires capacity > 0
    ensures 0 <= r < capacity
    ensures r == hash % capacity
  {
    TruncRemBounds(hash, capacity);
    var rem := TruncRem(hash, capacity);
    var index := if rem < 0 then rem + capacity else rem;
    ModUnique(hash, capacity, if rem < 0 then TruncDiv(hash, capacity) - 1 else TruncDiv(hash, capacity), index);
    index
  }
}
