/** Decimal numerals: their values and the one numeral each number is printed as. */
module Decimals {

  predicate IsDigit(c: char) {
    '0' <= c <= '9'
  }

  predicate IsDigits(s: string) {
    forall i :: 0 <= i < |s| ==> IsDigit(s[i])
  }

  function DigitValue(c: char): nat
    requires IsDigit(c)
  {
    (c - '0') as int
  }

  function DigitChar(d: int): (c: char)
    requires 0 <= d < 10
    ensures IsDigit(c) && DigitValue(c) == d
  {
    '0' + d as char
  }

  /** The number a string of decimal digits denotes; the empty string denotes 0. */
  function DecimalValue(s: string): (n: int)
    requires IsDigits(s)
    ensures 0 <= n
  {
    if s == "" then 0 else 10 * DecimalValue(s[..|s| - 1]) + DigitValue(s[|s| - 1])
  }

  /** The numeral of n without leading zeros. */
  function Decimal(n: nat): (s: string)
    ensures s != "" && IsDigits(s)
  {
    if n < 10 then [DigitChar(n)] else Decimal(n / 10) + [DigitChar(n % 10)]
  }

  /** The last k digits of n. */
  function Padded(n: nat, k: nat): (s: string)
    ensures |s| == k && IsDigits(s)
  {
    if k == 0 then "" else Padded(n / 10, k - 1) + [DigitChar(n % 10)]
  }

  function Ten(k: nat): (p: int)
    ensures 1 <= p
  {
    if k == 0 then 1 else 10 * Ten(k - 1)
  }

  /** Which digit stands for which number. */
  lemma DigitsInOrder(k: nat)
    requires k < 10
    ensures IsDigit("0123456789"[k]) && DigitValue("0123456789"[k]) == k && DigitChar(k) == "0123456789"[k]
  {
    assert '0' + 1 as char == '1' && '0' + 2 as char == '2' && '0' + 3 as char == '3' && '0' + 4 as char == '4';
    assert '0' + 5 as char == '5' && '0' + 6 as char == '6' && '0' + 7 as char == '7' && '0' + 8 as char == '8';
    assert '0' + 9 as char == '9';
  }

  /** A numeral with every digit, the most significant one first. */
  lemma EveryDigit()
    ensures Decimal(1_234_567_890) == "1234567890" && DecimalValue("1234567890") == 1_234_567_890
  {
    assert Decimal(1) == "1" by { DigitsInOrder(1); }
    AppendDigit(1, "1", 2);
    AppendDigit(12, "12", 3);
    AppendDigit(123, "123", 4);
    AppendDigit(1234, "1234", 5);
    AppendDigit(12345, "12345", 6);
    AppendDigit(123456, "123456", 7);
    AppendDigit(1234567, "1234567", 8);
    AppendDigit(12345678, "12345678", 9);
    AppendDigit(123456789, "123456789", 0);
    DecimalRoundTrip(1_234_567_890);
  }

  lemma AppendDigit(v: nat, s: string, d: nat)
    requires 1 <= v && Decimal(v) == s && d < 10
    ensures Decimal(10 * v + d) == s + ["0123456789"[d]]
  {
    LastDigit(v, d);
    DigitsInOrder(d);
  }

  lemma {:induction false} TenAdd(a: nat, b: nat)
    ensures Ten(a + b) == Ten(a) * Ten(b)
  {
    if b == 0 {
    } else {
      TenAdd(a, b - 1);
      var p, q := Ten(a), Ten(b - 1);
      assert 10 * (p * q) == p * (10 * q);
    }
  }

  lemma {:induction false} TenGrows(a: nat, b: nat)
    requires a <= b
    ensures Ten(a) <= Ten(b)
  {
    if a == b {
    } else {
      TenGrows(a, b - 1);
    }
  }

  /** Reading back the numeral of n gives n. */
  lemma {:induction false} DecimalRoundTrip(n: nat)
    ensures DecimalValue(Decimal(n)) == n
  {
    if n < 10 {
    } else {
      DecimalRoundTrip(n / 10);
      assert Decimal(n)[..|Decimal(n)| - 1] == Decimal(n / 10);
    }
  }

  lemma {:induction false} DecimalValueBound(s: string)
    requires IsDigits(s)
    ensures DecimalValue(s) < Ten(|s|)
  {
    if s == "" {
    } else {
      DecimalValueBound(s[..|s| - 1]);
    }
  }

  lemma {:induction false} DecimalValueAppend(a: string, b: string)
    requires IsDigits(a) && IsDigits(b)
    ensures IsDigits(a + b) && DecimalValue(a + b) == DecimalValue(a) * Ten(|b|) + DecimalValue(b)
  {
    if b == "" {
      assert a + b == a;
    } else {
      var b' := b[..|b| - 1];
      DecimalValueAppend(a, b');
      assert (a + b)[..|a + b| - 1] == a + b' && (a + b)[|a + b| - 1] == b[|b| - 1];
      AppendAlgebra(DecimalValue(a), Ten(|b'|), DecimalValue(b'), DigitValue(b[|b| - 1]));
    }
  }

  lemma AppendAlgebra(x: int, p: int, y: int, d: int)
    ensures 10 * (x * p + y) + d == x * (10 * p) + (10 * y + d)
  {
    assert 10 * (x * p) == x * (10 * p);
  }

  /** The first digit of a numeral is zero only in "0". */
  lemma {:induction false} DecimalLeadingDigit(n: nat)
    ensures Decimal(n)[0] == '0' <==> n == 0
    ensures n == 0 ==> Decimal(n) == "0"
  {
    if n < 10 {
    } else {
      DecimalLeadingDigit(n / 10);
      assert Decimal(n)[0] == Decimal(n / 10)[0];
    }
  }

  /** How many digits a positive number has. */
  lemma {:induction false} DecimalLength(n: nat)
    ensures n < Ten(|Decimal(n)|)
    ensures 1 <= n ==> Ten(|Decimal(n)| - 1) <= n
  {
    if n < 10 {
    } else {
      DecimalLength(n / 10);
      assert |Decimal(n)| == |Decimal(n / 10)| + 1;
    }
  }

  lemma DecimalLengthUnique(n: nat, k: nat)
    requires 1 <= k && Ten(k - 1) <= n < Ten(k)
    ensures |Decimal(n)| == k
  {
    DecimalLength(n);
    if k < |Decimal(n)| {
      TenGrows(k, |Decimal(n)| - 1);
    } else if |Decimal(n)| < k {
      TenGrows(|Decimal(n)|, k - 1);
    }
  }

  /** Splitting off the last k digits. */
  lemma {:induction false} DecimalSplit(high: nat, low: nat, k: nat)
    requires 0 < high && low < Ten(k)
    ensures 0 <= high * Ten(k) + low && Decimal(high * Ten(k) + low) == Decimal(high) + Padded(low, k)
  {
    if k == 0 {
      assert high * Ten(0) + low == high;
    } else {
      DecimalSplit(high, low / 10, k - 1);
      var m := high * Ten(k - 1);
      ShiftedProduct(high, Ten(k - 1));
      DecimalSnoc(m + low / 10, low % 10);
      assert 10 * (m + low / 10) + low % 10 == 10 * m + low;
    }
  }

  lemma ShiftedProduct(x: int, p: int)
    requires 0 < x && 0 < p
    ensures x * (10 * p) == 10 * (x * p) && 0 < x * p
  {
  }

  lemma DecimalSnoc(n: nat, d: nat)
    requires 0 < n && d < 10
    ensures Decimal(10 * n + d) == Decimal(n) + [DigitChar(d)]
  {
  }

  function Zeros(k: nat): (s: string)
    ensures |s| == k
  {
    seq(k, _ => '0')
  }

  /** What std::setfill('0') and std::setw(w) print for a short text. */
  function PadLeft(s: string, w: nat): string {
    if |s| < w then Zeros(w - |s|) + s else s
  }

  lemma {:induction false} PaddedIsPadLeft(n: nat, k: nat)
    requires 1 <= k && n < Ten(k)
    ensures PadLeft(Decimal(n), k) == Padded(n, k)
  {
    var c := DigitChar(n % 10);
    if n < 10 {
      PaddedZero(k - 1);
      assert Decimal(n) == [c];
    } else {
      PaddedIsPadLeft(n / 10, k - 1);
      PadLeftSnoc(Decimal(n / 10), c, k);
    }
  }

  lemma PadLeftSnoc(s: string, c: char, k: nat)
    requires 1 <= k
    ensures PadLeft(s + [c], k) == PadLeft(s, k - 1) + [c]
  {
  }

  lemma {:induction false} PaddedZero(k: nat)
    ensures Padded(0, k) == Zeros(k)
  {
    if k == 0 {
    } else {
      PaddedZero(k - 1);
    }
  }

  /** A digit string that does not start with a zero, or is one digit long, is the numeral of its value. */
  lemma {:induction false} CanonicalDigits(s: string)
    requires s != "" && IsDigits(s) && (s[0] != '0' || |s| == 1)
    ensures Decimal(DecimalValue(s)) == s
  {
    var t, c := s[..|s| - 1], s[|s| - 1];
    if t == "" {
      assert s == [c] && DecimalValue(s) == DigitValue(c);
      assert DigitChar(DigitValue(c)) == c;
    } else {
      assert t[0] == s[0];
      CanonicalDigits(t);
      LeadingDigitPositive(t);
      assert DecimalValue(s) == 10 * DecimalValue(t) + DigitValue(c);
      LastDigit(DecimalValue(t), DigitValue(c));
      assert s == t + [c];
    }
  }

  lemma LastDigit(v: nat, d: nat)
    requires 1 <= v && d < 10
    ensures Decimal(10 * v + d) == Decimal(v) + [DigitChar(d)]
  {
    assert (10 * v + d) / 10 == v && (10 * v + d) % 10 == d;
  }

  lemma {:induction false} LeadingDigitPositive(s: string)
    requires s != "" && IsDigits(s) && s[0] != '0'
    ensures 1 <= DecimalValue(s)
  {
    if 1 < |s| {
      LeadingDigitPositive(s[..|s| - 1]);
    } else {
      assert s[..0] == "" && s[0] == s[|s| - 1];
    }
  }

  lemma {:induction false} PaddedValue(n: nat, k: nat)
    requires n < Ten(k)
    ensures DecimalValue(Padded(n, k)) == n
  {
    if k == 0 {
    } else {
      PaddedValue(n / 10, k - 1);
      assert Padded(n, k)[..k - 1] == Padded(n / 10, k - 1);
    }
  }
}
