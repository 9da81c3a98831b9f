/** Little-endian numerals in base 10^9: what a vector of limbs denotes. */
module Limbs {
  import opened MachineInts

  const BASE: int := 1_000_000_000
  const UPPER_BOUND: int := 999_999_999
  const DIGIT_COUNT: int := 9

  type Numeral = seq<int32>

  /** The number a vector of limbs stands for, whatever the signs of its limbs. */
  function Value(v: Numeral): int {
    if v == [] then 0 else v[0] as int + BASE * Value(v[1..])
  }

  function Power(k: nat): (p: int)
    ensures 1 <= p
  {
    if k == 0 then 1 else BASE * Power(k - 1)
  }

  /** Every limb lies in [0, BASE). */
  ghost predicate Digits(v: Numeral) {
    forall i :: 0 <= i < |v| ==> 0 <= v[i] as int < BASE
  }

  /** Every limb lies in (-BASE, BASE). */
  ghost predicate SignedDigits(v: Numeral) {
    forall i :: 0 <= i < |v| ==> -BASE < v[i] as int < BASE
  }

  ghost predicate AllZero(v: Numeral) {
    forall i :: 0 <= i < |v| ==> v[i] == 0
  }

  /** Digits with no zero limb in front, except in the numeral of zero itself. */
  ghost predicate Canonical(v: Numeral) {
    0 < |v| && Digits(v) && (1 < |v| ==> v[|v| - 1] != 0)
  }

  lemma {:induction false} ValueAppend(a: Numeral, b: Numeral)
    ensures Value(a + b) == Value(a) + Power(|a|) * Value(b)
  {
    if a == [] {
      assert a + b == b;
    } else {
      ValueAppend(a[1..], b);
      assert (a + b)[1..] == a[1..] + b;
      var p, w := Power(|a| - 1), Value(b);
      assert BASE * (p * w) == (BASE * p) * w;
    }
  }

  lemma ValueSnoc(a: Numeral, x: int32)
    ensures Value(a + [x]) == Value(a) + Power(|a|) * x as int
  {
    ValueAppend(a, [x]);
    assert Value([x]) == x as int;
  }

  /** The part of a numeral below position i + 1 in terms of the part below i. */
  lemma ValueTake(v: Numeral, i: nat)
    requires i < |v|
    ensures Value(v[..i + 1]) == Value(v[..i]) + Power(i) * v[i] as int
  {
    assert v[..i + 1] == v[..i] + [v[i]];
    ValueSnoc(v[..i], v[i]);
  }

  lemma {:induction false} ValueOfZeros(v: Numeral)
    requires AllZero(v)
    ensures Value(v) == 0
  {
    if v == [] {
    } else {
      ValueOfZeros(v[1..]);
    }
  }

  lemma {:induction false} ValueBound(v: Numeral)
    requires Digits(v)
    ensures 0 <= Value(v) < Power(|v|)
  {
    if v == [] {
    } else {
      ValueBound(v[1..]);
    }
  }

  lemma {:induction false} SignedValueBound(v: Numeral)
    requires SignedDigits(v)
    ensures -Power(|v|) < Value(v) < Power(|v|)
  {
    if v == [] {
    } else {
      SignedValueBound(v[1..]);
    }
  }

  lemma {:induction false} PowerAdd(a: nat, b: nat)
    ensures Power(a + b) == Power(a) * Power(b)
  {
    if a == 0 {
    } else {
      PowerAdd(a - 1, b);
      var p, q := Power(a - 1), Power(b);
      assert BASE * (p * q) == (BASE * p) * q;
    }
  }

  lemma {:induction false} PowerGrows(a: nat, b: nat)
    requires a <= b
    ensures Power(a) <= Power(b)
  {
    if a == b {
    } else {
      PowerGrows(a, b - 1);
    }
  }

  /** A canonical numeral of n limbs is at least BASE^(n-1), unless it is 0. */
  lemma CanonicalLowerBound(v: Numeral)
    requires Canonical(v)
    ensures 1 < |v| ==> Power(|v| - 1) <= Value(v)
  {
    if 1 < |v| {
      var n := |v| - 1;
      assert v[..n + 1] == v;
      ValueTake(v, n);
      assert Digits(v[..n]);
      ValueBound(v[..n]);
      MultiplyBothSides(1, v[n] as int, Power(n));
    }
  }

  /** Only the numeral [0] is canonical for zero. */
  lemma CanonicalZero(v: Numeral)
    requires Canonical(v)
    ensures Value(v) == 0 <==> v == [0]
  {
    CanonicalLowerBound(v);
    if |v| == 1 {
      assert v == [v[0]];
      assert Value(v) == v[0] as int;
    }
  }

  /** The numeral with more limbs is the larger one. */
  lemma LongerIsLarger(a: Numeral, b: Numeral)
    requires Canonical(a) && Canonical(b) && |a| < |b|
    ensures Value(a) < Value(b)
  {
    ValueBound(a);
    PowerGrows(|a|, |b| - 1);
    CanonicalLowerBound(b);
  }

  /** With equal limbs above position i, the limb at i decides the order. */
  lemma {:induction false} HigherLimbDecides(a: Numeral, b: Numeral, i: nat)
    requires Digits(a) && Digits(b) && |a| == |b| && i < |a|
    requires a[i + 1..] == b[i + 1..] && a[i] < b[i]
    ensures Value(a) < Value(b)
  {
    assert Digits(a[1..]) && Digits(b[1..]);
    if i == 0 {
      assert a[1..] == b[1..];
    } else {
      assert a[1..][i..] == a[i + 1..] && b[1..][i..] == b[i + 1..];
      HigherLimbDecides(a[1..], b[1..], i - 1);
    }
  }

  /** Two canonical numerals of one number are the same numeral. */
  lemma {:induction false} DigitsInjective(a: Numeral, b: Numeral)
    requires Digits(a) && Digits(b) && |a| == |b| && Value(a) == Value(b)
    ensures a == b
  {
    if a == [] {
    } else {
      assert Digits(a[1..]) && Digits(b[1..]);
      assert a[0] == b[0] && Value(a[1..]) == Value(b[1..]);
      DigitsInjective(a[1..], b[1..]);
      assert a == [a[0]] + a[1..] && b == [b[0]] + b[1..];
    }
  }

  lemma CanonicalInjective(a: Numeral, b: Numeral)
    requires Canonical(a) && Canonical(b) && Value(a) == Value(b)
    ensures a == b
  {
    if |a| < |b| {
      LongerIsLarger(a, b);
    } else if |b| < |a| {
      LongerIsLarger(b, a);
    } else {
      DigitsInjective(a, b);
    }
  }

  /** Moving q units of position i + 1 into position i does not change the number. */
  lemma {:induction false} ExchangePreservesValue(v: Numeral, w: Numeral, i: nat, q: int)
    requires i + 1 < |v| == |w|
    requires forall k :: 0 <= k < |v| && k != i && k != i + 1 ==> w[k] == v[k]
    requires w[i] as int == v[i] as int + q * BASE && w[i + 1] as int == v[i + 1] as int - q
    ensures Value(w) == Value(v)
  {
    if i == 0 {
      assert v[1..][1..] == w[1..][1..];
    } else {
      ExchangePreservesValue(v[1..], w[1..], i - 1, q);
    }
  }

  /** x itself for a positive number, -x for a negative one. */
  function Signed(positive: bool, x: int): int {
    if positive then x else -x
  }

  /** Every limb has the given sign or is zero. */
  ghost predicate OneSigned(v: Numeral, positive: bool) {
    forall i :: 0 <= i < |v| ==> 0 <= Signed(positive, v[i] as int) < BASE
  }

  lemma {:induction false} OneSignedValue(v: Numeral, positive: bool)
    requires OneSigned(v, positive)
    ensures 0 <= Signed(positive, Value(v))
  {
    if v == [] {
    } else {
      OneSignedValue(v[1..], positive);
    }
  }

  /** The limbs v1, ..., v(n-1) between a limb of the wrong sign and the one it borrows from. */
  lemma {:induction false} BorrowPreservesValue(v: Numeral, w: Numeral, n: nat, positive: bool)
    requires 1 <= n < |v| == |w|
    requires w[0] as int == v[0] as int + Signed(positive, BASE)
    requires forall k :: 1 <= k < n ==> v[k] == 0 && w[k] as int == Signed(positive, UPPER_BOUND)
    requires w[n] as int == v[n] as int - Signed(positive, 1)
    requires forall k :: n < k < |v| ==> w[k] == v[k]
    ensures Value(w) == Value(v)
    decreases n
  {
    var s := Signed(positive, 1);
    if n == 1 {
      ExchangePreservesValue(v, w, 0, s);
    } else {
      var u := w[n - 1 := -s as int32][n := v[n]];
      BorrowPreservesValue(v, u, n - 1, positive);
      ExchangePreservesValue(u, w, n - 1, s);
    }
  }

  /** Equal prefixes: the numbers agree if what follows does. */
  lemma ValueOfSuffix(v: Numeral, w: Numeral, i: nat)
    requires i <= |v| && i <= |w| && v[..i] == w[..i] && Value(v[i..]) == Value(w[i..])
    ensures Value(v) == Value(w)
  {
    assert v == v[..i] + v[i..] && w == w[..i] + w[i..];
    ValueAppend(v[..i], v[i..]);
    ValueAppend(w[..i], w[i..]);
  }

  lemma {:induction false} ValueOfNegation(v: Numeral, w: Numeral)
    requires |v| == |w| && forall i :: 0 <= i < |v| ==> w[i] as int == -(v[i] as int)
    ensures Value(w) == -Value(v)
  {
    if v == [] {
    } else {
      ValueOfNegation(v[1..], w[1..]);
    }
  }

  /** Dropping leading zero limbs keeps the number. */
  lemma ValueOfPrefix(v: Numeral, n: nat)
    requires n <= |v| && AllZero(v[n..])
    ensures Value(v[..n]) == Value(v)
  {
    assert v == v[..n] + v[n..];
    ValueAppend(v[..n], v[n..]);
    ValueOfZeros(v[n..]);
  }

  /** Limbs whose carries cannot leave the 32-bit range while they are truncated. */
  ghost predicate Correctable(v: Numeral) {
    && v != []
    && (forall i :: 0 <= i < |v| - 1 ==> Abs(v[i] as int) <= 2 * UPPER_BOUND)
    && (Abs(v[|v| - 1] as int) <= 2 * UPPER_BOUND || SignedDigits(v[..|v| - 1]))
  }

  /** Truncating a 32-bit limb leaves a signed digit and carries at most 2. */
  lemma TruncateLimb(x: int32)
    ensures -BASE < Rem(x as int, BASE) < BASE && -2 <= Quot(x as int, BASE) <= 2
    ensures x as int == Quot(x as int, BASE) * BASE + Rem(x as int, BASE)
  {
    QuotRemLaw(x as int, BASE);
  }

  /** A carry out of the last limb becomes a limb of its own. */
  lemma CarryOutPreservesValue(v: Numeral, r: int32, q: int32)
    requires v != [] && v[|v| - 1] as int == q as int * BASE + r as int
    ensures Value(v[|v| - 1 := r] + [q]) == Value(v)
  {
    var n := |v| - 1;
    assert v == v[..n] + [v[n]] && v[n := r] + [q] == v[..n] + [r, q];
    ValueAppend(v[..n], [v[n]]);
    ValueAppend(v[..n], [r, q]);
    assert [r, q][1..] == [q] && Value([q]) == q as int;
    assert Value([r, q]) == v[n] as int == Value([v[n]]);
  }

  /** Limb i, or the zero that an absent limb stands for. */
  function LimbAt(v: Numeral, i: int): int {
    if 0 <= i < |v| then v[i] as int else 0
  }

  /** The first n limbs of w are sums of the signed limbs of a and b. */
  ghost predicate SumOfLimbs(a: Numeral, pa: bool, b: Numeral, pb: bool, w: Numeral, n: nat) {
    && n <= |w|
    && forall i :: 0 <= i < n ==> w[i] as int == Signed(pa, LimbAt(a, i)) + Signed(pb, LimbAt(b, i))
  }

  /** Adding limb by limb adds the numbers, before any carry is propagated. */
  lemma {:induction false} LimbwiseSum(a: Numeral, pa: bool, b: Numeral, pb: bool, w: Numeral)
    requires |a| <= |w| && |b| <= |w| && SumOfLimbs(a, pa, b, pb, w, |w|)
    ensures Value(w) == Signed(pa, Value(a)) + Signed(pb, Value(b))
  {
    if w == [] {
    } else {
      var a', b' := if a == [] then a else a[1..], if b == [] then b else b[1..];
      assert forall i :: 0 <= i < |w| - 1 ==> LimbAt(a', i) == LimbAt(a, i + 1) && LimbAt(b', i) == LimbAt(b, i + 1);
      LimbwiseSum(a', pa, b', pb, w[1..]);
      assert Value(a) == LimbAt(a, 0) + BASE * Value(a') && Value(b) == LimbAt(b, 0) + BASE * Value(b');
    }
  }

  /** The limbwise sum of two canonical numerals is ready for correction. */
  lemma CanonicalSum(a: Numeral, pa: bool, b: Numeral, pb: bool, w: Numeral)
    requires Canonical(a) && Canonical(b) && |a| <= |w| && |b| <= |w| && SumOfLimbs(a, pa, b, pb, w, |w|)
    ensures Correctable(w) && Value(w) == Signed(pa, Value(a)) + Signed(pb, Value(b))
  {
    LimbwiseSum(a, pa, b, pb, w);
    forall i | 0 <= i < |w| ensures Abs(w[i] as int) <= 2 * UPPER_BOUND {
      LimbBound(a, pa, i);
      LimbBound(b, pb, i);
    }
  }

  lemma LimbBound(v: Numeral, positive: bool, i: nat)
    requires Digits(v)
    ensures -UPPER_BOUND <= Signed(positive, LimbAt(v, i)) <= UPPER_BOUND
  {
  }

  /** One limb of a product by a single digit: what was carried in plus the limb's own product. */
  lemma DigitProductStep(v: Numeral, w: Numeral, i: nat, factor: int, carry: int, quot: int)
    requires i < |v| && i < |w|
    requires Value(w[..i]) + Power(i) * carry == factor * Value(v[..i])
    requires v[i] as int * factor + carry == quot * BASE + w[i] as int
    ensures Value(w[..i + 1]) + Power(i + 1) * quot == factor * Value(v[..i + 1])
  {
    ValueTake(v, i);
    ValueTake(w, i);
    DigitProductAlgebra(Power(i), v[i] as int, w[i] as int, factor, carry, quot, Value(v[..i]), Value(w[..i]));
  }

  lemma DigitProductAlgebra(p: int, x: int, y: int, factor: int, carry: int, quot: int, low: int, product: int)
    requires product + p * carry == factor * low
    requires x * factor + carry == quot * BASE + y
    ensures product + p * y + BASE * p * quot == factor * (low + p * x)
  {
    Distribute(factor, low, p * x);
    Distribute(p, x * factor, carry);
    Distribute(p, quot * BASE, y);
    Associate(p, x, factor);
    Associate(p, quot, BASE);
  }

  /** A limb product plus a smaller carry fits 64 bits and carries less than the factor. */
  lemma DigitProductBound(x: int, factor: int, carry: int)
    requires 0 <= x < BASE && 0 <= carry && (carry == 0 || carry < factor) && 0 <= factor < 0x8000_0000
    ensures 0 <= x * factor + carry < 0x8000_0000_0000_0000
    ensures (x * factor + carry) / BASE == 0 || (x * factor + carry) / BASE < factor
  {
    var product := x * factor;
    assert 0 <= product <= UPPER_BOUND * factor by {
      MultiplyBothSides(x, UPPER_BOUND, factor);
    }
    assert product + carry < BASE * factor || product + carry == 0;
  }

  /** The first n terms of the column of digit position k in the product of a and b. */
  function ColumnPart(a: Numeral, b: Numeral, k: int, n: nat): int
    requires n <= |a|
  {
    if n == 0 then 0 else ColumnPart(a, b, k, n - 1) + a[n - 1] as int * LimbAt(b, k - (n - 1))
  }

  /** The columns below position d, weighted by their positions. */
  function Columns(a: Numeral, b: Numeral, d: nat): int {
    if d == 0 then 0 else Columns(a, b, d - 1) + Power(d - 1) * ColumnPart(a, b, d - 1, |a|)
  }

  /** A column splits into the term of the lowest limb and the column of the rest. */
  lemma {:induction false} ColumnTail(a: Numeral, b: Numeral, k: int, n: nat)
    requires 1 <= n <= |a|
    ensures ColumnPart(a, b, k, n) == a[0] as int * LimbAt(b, k) + ColumnPart(a[1..], b, k - 1, n - 1)
  {
    if n == 1 {
      assert ColumnPart(a, b, k, 0) == 0;
    } else {
      ColumnTail(a, b, k, n - 1);
      assert a[1..][n - 2] == a[n - 1];
    }
  }

  lemma {:induction false} ColumnBelowZero(a: Numeral, b: Numeral, k: int, n: nat)
    requires n <= |a| && k < 0
    ensures ColumnPart(a, b, k, n) == 0
  {
    if n == 0 {
    } else {
      ColumnBelowZero(a, b, k, n - 1);
    }
  }

  lemma {:induction false} ColumnsTail(a: Numeral, b: Numeral, d: nat)
    requires a != []
    ensures Columns(a, b, d) == a[0] as int * Value(b[..if d < |b| then d else |b|])
                                + (if d == 0 then 0 else BASE * Columns(a[1..], b, d - 1))
  {
    if d == 0 {
    } else {
      var x := a[0] as int;
      ColumnsTail(a, b, d - 1);
      ColumnTail(a, b, d - 1, |a|);
      if d <= |b| {
        ValueTake(b, d - 1);
      }
      if d == 1 {
        ColumnBelowZero(a[1..], b, -1, |a| - 1);
      }
      var p, y, c := Power(d - 1), LimbAt(b, d - 1), ColumnPart(a[1..], b, d - 2, |a| - 1);
      ColumnsTailAlgebra(x, Value(b[..if d - 1 < |b| then d - 1 else |b|]), p, y, c);
      Associate(BASE, if d == 1 then 0 else Power(d - 2), c);
    }
  }

  lemma ColumnsTailAlgebra(x: int, low: int, p: int, y: int, c: int)
    ensures x * low + p * (x * y + c) == x * (low + p * y) + p * c
  {
    Distribute(x, low, p * y);
    Distribute(p, x * y, c);
    Associate(p, x, y);
    Associate(x, p, y);
  }

  /** All columns together make the product. */
  lemma {:induction false} ColumnsMakeProduct(a: Numeral, b: Numeral, d: nat)
    requires |a| + |b| <= d + 1
    ensures Columns(a, b, d) == Value(a) * Value(b)
    decreases |a|
  {
    if a == [] {
      ColumnsOfNothing(b, d);
    } else {
      ColumnsTail(a, b, d);
      assert b[..|b|] == b;
      if d == 0 {
        assert a[1..] == [];
      } else {
        ColumnsMakeProduct(a[1..], b, d - 1);
      }
      ProductOfSum(a[0] as int, Value(a[1..]), Value(b));
    }
  }

  lemma ProductOfSum(x: int, t: int, y: int)
    ensures (x + BASE * t) * y == x * y + BASE * (t * y)
  {
    Distribute(y, x, BASE * t);
    Associate(BASE, t, y);
  }

  lemma {:induction false} ColumnsOfNothing(b: Numeral, d: nat)
    ensures Columns([], b, d) == 0
  {
    if d == 0 {
    } else {
      ColumnsOfNothing(b, d - 1);
    }
  }

  /** Terms that pair limbs of a with absent high limbs of b are zero. */
  lemma {:induction false} ColumnOutside(a: Numeral, b: Numeral, k: nat, n: nat)
    requires n <= |a| && (n == 0 || n + |b| <= k + 1)
    ensures ColumnPart(a, b, k, n) == 0
  {
    if n == 0 {
    } else {
      ColumnOutside(a, b, k, n - 1);
    }
  }

  /** Terms past position k are zero. */
  lemma {:induction false} ColumnAbove(a: Numeral, b: Numeral, k: nat, n: nat, m: nat)
    requires k < n <= m <= |a|
    ensures ColumnPart(a, b, k, m) == ColumnPart(a, b, k, n)
  {
    if n == m {
    } else {
      ColumnAbove(a, b, k, n, m - 1);
    }
  }

  /** Storing the limb of column d and carrying the rest accounts for one more column. */
  lemma ColumnStep(a: Numeral, b: Numeral, w: Numeral, d: nat, oldcarry: int, carry: int)
    requires d < |w| && Value(w[..d]) + Power(d) * oldcarry == Columns(a, b, d)
    requires w[d] as int + BASE * carry == oldcarry + ColumnPart(a, b, d, |a|)
    ensures Value(w[..d + 1]) + Power(d + 1) * carry == Columns(a, b, d + 1)
  {
    ValueTake(w, d);
    Distribute(Power(d), w[d] as int, BASE * carry);
    Distribute(Power(d), oldcarry, ColumnPart(a, b, d, |a|));
    Associate(Power(d), BASE, carry);
  }

  /** Nothing is carried out of the last column of a total that fits the limbs. */
  lemma NoFinalCarry(w: Numeral, total: int, oldcarry: int, carry: int)
    requires Digits(w) && w != [] && total < Power(|w|)
    requires Value(w[..|w| - 1]) + Power(|w| - 1) * oldcarry == total
    requires oldcarry == carry * BASE + w[|w| - 1] as int && 0 <= carry
    ensures carry == 0 && Value(w) == total
  {
    var d := |w| - 1;
    assert w[..d + 1] == w;
    ValueTake(w, d);
    TopCarryAlgebra(Power(d), carry, w[d] as int);
    ValueBound(w);
    SmallCarry(Value(w), Power(|w|), carry);
  }

  lemma TopCarryAlgebra(p: int, carry: int, limb: int)
    ensures p * (carry * BASE + limb) == p * limb + BASE * p * carry
  {
    Distribute(p, carry * BASE, limb);
    Associate(p, carry, BASE);
  }

  lemma SmallCarry(low: int, p: int, carry: int)
    requires 0 < p && 0 <= low && 0 <= carry && low + p * carry < p
    ensures carry == 0
  {
    assert 1 <= carry ==> p <= p * carry;
  }

  lemma ProductFits(a: Numeral, b: Numeral)
    requires Digits(a) && Digits(b)
    ensures 0 <= Value(a) * Value(b) < Power(|a| + |b|)
  {
    ValueBound(a);
    ValueBound(b);
    PowerAdd(|a|, |b|);
    ProductBound(Value(a), Power(|a|), Value(b), Power(|b|));
  }

  lemma ProductBound(x: int, p: int, y: int, q: int)
    requires 0 <= x < p && 0 <= y < q
    ensures 0 <= x * y < p * q
  {
    MultiplyBothSides(x, p, y);
    assert p * y < p * q;
  }

  lemma SignedProduct(p: bool, x: int, q: bool, y: int)
    ensures Signed(p, x) * Signed(q, y) == Signed(p == q, x * y)
  {
    NegateProduct(x, y);
    NegateProduct(-x, y);
  }

  /** The highest limb in which two equally long numerals differ decides their order. */
  lemma LimbOrder(a: Numeral, b: Numeral, i: nat)
    requires Digits(a) && Digits(b) && |a| == |b| && i < |a|
    requires a[i + 1..] == b[i + 1..] && a[i] != b[i]
    ensures a[i] < b[i] <==> Value(a) < Value(b)
    ensures Value(a) != Value(b)
  {
    if a[i] < b[i] {
      HigherLimbDecides(a, b, i);
    } else {
      HigherLimbDecides(b, a, i);
    }
  }

  /** The number of limbs orders canonical numerals of different lengths. */
  lemma LengthOrder(a: Numeral, b: Numeral)
    requires Canonical(a) && Canonical(b) && |a| != |b|
    ensures |a| < |b| <==> Value(a) < Value(b)
    ensures Value(a) != Value(b)
  {
    if |a| < |b| {
      LongerIsLarger(a, b);
    } else {
      LongerIsLarger(b, a);
    }
  }

  /** One step of long division, counted in numbers. */
  lemma DivisionAlgebra(high: int, quot: int, d: int, r: int, limb: int, cnt: int, r': int)
    requires high == quot * d + r && r' == limb + BASE * r - cnt * d
    ensures limb + BASE * high == (cnt + BASE * quot) * d + r'
  {
    Distribute(d, cnt, BASE * quot);
    Associate(BASE, quot, d);
  }

  lemma SignedDigitProduct(p: bool, x: int, d: int)
    ensures Signed(p == (d >= 0), Abs(d) * x) == Signed(p, x) * d
  {
    NegateProduct(d, x);
    NegateProduct(x, d);
  }

  /** The signs of quotient and remainder follow from those of the operands. */
  lemma SignedQuotRem(p: bool, n: int, s: bool, d: int, q: int, r: int)
    requires 0 <= n && 0 < d && n == q * d + r && 0 <= r < d
    ensures Quot(Signed(p, n), Signed(s, d)) == Signed(p == s, q)
    ensures Rem(Signed(p, n), Signed(s, d)) == Signed(p, r)
  {
    var product := q * d;
    assert Signed(p == s, q) * Signed(s, d) == Signed(p, product) by {
      NegateProduct(q, d);
      NegateProduct(-q, d);
    }
    assert Abs(Signed(p, r)) == r && Abs(Signed(s, d)) == d;
    QuotRemUnique(Signed(p, n), Signed(s, d), Signed(p == s, q), Signed(p, r));
  }

  /** The topmost limb gives the magnitude of a number. */
  lemma TopLimbBounds(v: Numeral)
    requires v != [] && Digits(v)
    ensures Power(|v| - 1) * v[|v| - 1] as int <= Value(v) < Power(|v| - 1) * (v[|v| - 1] as int + 1)
  {
    var n := |v| - 1;
    assert v[..n + 1] == v;
    ValueTake(v, n);
    ValueBound(v[..n]);
    Distribute(Power(n), v[n] as int, 1);
  }
}
