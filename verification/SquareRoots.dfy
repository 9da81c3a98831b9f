/** Integer square roots and the bounds between which they are searched. */
module SquareRoots {
  import opened MachineInts
  import opened Decimals

  /** r is the largest integer whose square is at most n. */
  ghost predicate IsRoot(n: int, r: int) {
    0 <= r && r * r <= n < (r + 1) * (r + 1)
  }

  /** The root lies in [lo, hi); for n == 1 the search starts with both bounds equal to the root. */
  ghost predicate BracketsRoot(n: int, lo: int, hi: int) {
    0 <= lo && 0 <= hi && lo * lo <= n && (n < hi * hi || (n == 1 && lo == 1 && hi == 1))
  }

  /** Half the number of digits, less one. */
  function HalfDigits(digits: nat): nat {
    if digits / 2 >= 2 then digits / 2 - 1 else 0
  }

  lemma SquareMonotone(x: int, y: int)
    requires 0 <= x <= y
    ensures x * x <= y * y
  {
    MultiplyBothSides(x, y, x);
    MultiplyBothSides(x, y, y);
  }

  lemma SquareOrder(x: int, y: int)
    requires 0 <= x && 0 <= y && x * x < y * y
    ensures x < y
  {
    if y <= x {
      SquareMonotone(y, x);
      assert false;
    }
  }

  /** No two integers are roots of the same number. */
  lemma RootUnique(n: int, r: int, s: int)
    requires IsRoot(n, r) && IsRoot(n, s)
    ensures r == s
  {
    SquareOrder(r, s + 1);
    SquareOrder(s, r + 1);
  }

  lemma BracketOrder(n: int, lo: int, hi: int)
    requires BracketsRoot(n, lo, hi)
    ensures lo < hi || (n == 1 && lo == 1 && hi == 1)
  {
    if n < hi * hi {
      SquareOrder(lo, hi);
    }
  }

  lemma BracketStep(n: int, lo: int, hi: int, mid: int)
    requires BracketsRoot(n, lo, hi) && mid == (hi + lo) / 2 && mid * mid != n
    ensures if mid * mid < n then BracketsRoot(n, mid, hi) else BracketsRoot(n, lo, mid)
  {
  }

  lemma RootFound(r: int)
    requires 0 <= r
    ensures IsRoot(r * r, r)
  {
    assert (r + 1) * (r + 1) == r * r + 2 * r + 1;
  }

  lemma NarrowBracket(n: int, lo: int, hi: int)
    requires BracketsRoot(n, lo, hi) && lo >= hi - 1
    ensures IsRoot(n, lo)
  {
    SquareMonotone(hi, lo + 1);
  }

  /** n / 2 + 1 and the powers of ten around half the number of digits bracket the root. */
  lemma SqrtStartBounds(n: int)
    requires 1 <= n
    ensures var p := Ten(HalfDigits(|Decimal(n)|)); var half := n / 2 + 1;
            BracketsRoot(n, if 0 < p then p else 0, if half > 100 * p then 100 * p else half)
  {
    var d := |Decimal(n)|;
    var e := HalfDigits(d);
    var p, half := Ten(e), n / 2 + 1;
    DecimalLength(n);
    assert p * p <= n by {
      TenAdd(e, e);
      TenGrows(e + e, d - 1);
    }
    assert n < (100 * p) * (100 * p) by {
      assert Ten(e + 2) == 100 * p;
      TenAdd(e + 2, e + 2);
      TenGrows(d, e + e + 4);
    }
    assert n < half * half || n == 1 by {
      HalfSquare(n, half);
    }
    if n == 1 {
      assert e == 0;
    }
  }

  lemma HalfSquare(n: int, half: int)
    requires 1 <= n && half == n / 2 + 1
    ensures n < half * half || n == 1
  {
    if 2 <= n {
      MultiplyBothSides(2, half, half);
    }
  }
}
