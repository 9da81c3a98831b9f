/** Fixed-width integers and the truncating division of C and C++. */
module MachineInts {

  newtype int32 = x: int | -0x8000_0000 <= x < 0x8000_0000
  newtype int64 = x: int | -0x8000_0000_0000_0000 <= x < 0x8000_0000_0000_0000

  const TWO_32: int := 0x1_0000_0000

  /** The quotient rounded toward zero, as `/` and `div` compute it. */
  function Quot(x: int, y: int): (q: int)
    requires y != 0
  {
    if 0 <= x then
      if 0 < y then x / y else -(x / -y)
    else
      if 0 < y then -(-x / y) else -x / -y
  }

  /** The remainder that goes with Quot; it has the sign of the dividend. */
  function Rem(x: int, y: int): (r: int)
    requires y != 0
  {
    x - Quot(x, y) * y
  }

  /** What the law of truncating division says about a quotient and a remainder. */
  ghost predicate IsQuotRem(x: int, y: int, q: int, r: int) {
    && x == q * y + r
    && Abs(r) < Abs(y)
    && (r == 0 || (r < 0 <==> x < 0))
  }

  function Abs(x: int): (r: int) {
    if x < 0 then -x else x
  }

  lemma EuclideanLaw(x: int, d: int)
    requires 0 < d
    ensures x == x / d * d + x % d && 0 <= x % d < d
  {
  }

  lemma NegateProduct(a: int, b: int)
    ensures -(a * b) == (-a) * b == a * (-b)
  {
  }

  /** Quot and Rem satisfy the law for every dividend and every non-zero divisor. */
  lemma QuotRemLaw(x: int, y: int)
    requires y != 0
    ensures IsQuotRem(x, y, Quot(x, y), Rem(x, y))
  {
    EuclideanLaw(Abs(x), Abs(y));
    var q := Abs(x) / Abs(y);
    NegateProduct(q, Abs(y));
    NegateProduct(-q, Abs(y));
    NegateProduct(q, y);
  }

  /** A multiple of d smaller than d in magnitude is zero. */
  lemma SmallMultiple(k: int, d: int)
    requires -d < k * d < d
    ensures k == 0
  {
    assert 1 <= k ==> k * d >= d;
    assert k <= -1 ==> k * d <= -d;
  }

  /** The law has only one solution. */
  lemma QuotRemUnique(x: int, y: int, q: int, r: int)
    requires y != 0 && IsQuotRem(x, y, q, r)
    ensures q == Quot(x, y) && r == Rem(x, y)
  {
    QuotRemLaw(x, y);
    OneSolution(x, y, q, r, Quot(x, y), Rem(x, y));
  }

  lemma OneSolution(x: int, y: int, q: int, r: int, q': int, r': int)
    requires y != 0 && IsQuotRem(x, y, q, r) && IsQuotRem(x, y, q', r')
    ensures q == q' && r == r'
  {
    var k := q - q';
    Distribute(y, k, q');
    assert k * y == r' - r;
    if y < 0 {
      NegateProduct(k, y);
      SmallMultiple(k, -y);
    } else {
      SmallMultiple(k, y);
    }
  }

  /** The value a C++ narrowing conversion to a 32-bit int stores. */
  function Wrap32(x: int): (r: int)
    ensures -0x8000_0000 <= r < 0x8000_0000
  {
    (x + 0x8000_0000) % TWO_32 - 0x8000_0000
  }

  /** Wrapping a subtrahend first is harmless when the final result fits. */
  lemma WrapCancels(x: int, y: int)
    requires -0x8000_0000 <= x - y < 0x8000_0000
    ensures Wrap32(x - Wrap32(y)) == x - y
  {
    var k := (y + 0x8000_0000) / TWO_32;
    assert Wrap32(y) == y - k * TWO_32;
    assert x - Wrap32(y) == (x - y) + k * TWO_32;
  }

  lemma Distribute(a: int, b: int, c: int)
    ensures a * (b + c) == a * b + a * c
  {
  }

  lemma Associate(a: int, b: int, c: int)
    ensures a * (b * c) == (a * b) * c == (a * c) * b
  {
  }

  lemma MultiplyBothSides(x: int, y: int, z: int)
    requires 0 <= x <= y && 0 <= z
    ensures 0 <= x * z <= y * z
  {
  }
}
