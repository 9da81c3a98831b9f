/** The text of integers: what is printed, and what the nine-digit chunks of a text are read as. */
module IntText {
  import opened MachineInts
  import opened Limbs
  import opened Decimals

  /** The text printed for an integer. */
  function Text(x: int): string {
    if x < 0 then "-" + Decimal(-x) else Decimal(x)
  }

  /** Decimal digits, at least one, after an optional minus sign. */
  predicate IsNumeral(s: string) {
    s != "" && if s[0] == '-' then s != "-" && IsDigits(s[1..]) else IsDigits(s)
  }

  /** The integer a numeral denotes. */
  function Meaning(s: string): int
    requires IsNumeral(s)
  {
    if s[0] == '-' then -DecimalValue(s[1..]) else DecimalValue(s)
  }

  /** The digits of a signed numeral that share the topmost nine-character chunk with the sign. */
  function SignChunk(s: string): string
    requires IsNumeral(s) && s[0] == '-'
  {
    s[1..][..(|s| - 1) % DIGIT_COUNT]
  }

  /** The sign of a chunk is only seen when it stands alone or before a number that is not 0. */
  ghost predicate SignIsSeen(s: string)
    requires IsNumeral(s) && s[0] == '-'
  {
    SignChunk(s) == "" || DecimalValue(SignChunk(s)) != 0
  }

  predicate IsSpace(c: char) {
    c == ' ' || '\t' <= c <= '\r'
  }

  function SkipSpace(s: string): (t: string)
    ensures |t| <= |s|
  {
    if s != "" && IsSpace(s[0]) then SkipSpace(s[1..]) else s
  }

  function LeadingDigits(s: string): (t: string)
    ensures IsDigits(t) && |t| <= |s|
    ensures IsDigits(s) ==> t == s
  {
    if s != "" && IsDigit(s[0]) then [s[0]] + LeadingDigits(s[1..]) else ""
  }

  /** The C function atoi on texts too short to overflow. */
  function Atoi(s: string): int {
    var t := SkipSpace(s);
    if t != "" && t[0] == '-' then -DecimalValue(LeadingDigits(t[1..]))
    else if t != "" && t[0] == '+' then DecimalValue(LeadingDigits(t[1..]))
    else DecimalValue(LeadingDigits(t))
  }

  lemma AtoiRange(s: string)
    requires |s| <= DIGIT_COUNT
    ensures -BASE < Atoi(s) < BASE
  {
    var t := SkipSpace(s);
    var u := LeadingDigits(if t != "" && (t[0] == '-' || t[0] == '+') then t[1..] else t);
    DecimalValueBound(u);
    TenGrows(|u|, DIGIT_COUNT);
    TenNine();
  }

  /** A chunk of up to nine characters as a limb. */
  function Chunk(s: string): (x: int32)
    requires |s| <= DIGIT_COUNT
    ensures -BASE < x as int < BASE
  {
    AtoiRange(s);
    Atoi(s) as int32
  }

  /** The limbs of any text: nine characters each from the right, except for a minus sign that is left over alone. */
  function ReadLimbs(s: string): (v: Numeral)
    ensures SignedDigits(v) && (s != "" && s != "-" ==> v != [])
  {
    if s == "" || s == "-" then []
    else if |s| <= DIGIT_COUNT then [Chunk(s)]
    else [Chunk(s[|s| - DIGIT_COUNT..])] + ReadLimbs(s[..|s| - DIGIT_COUNT])
  }

  predicate LoneMinus(s: string) {
    |s| % DIGIT_COUNT == 1 && s[0] == '-'
  }

  /** Limbs with the sign of the topmost dropped. */
  function TopUnsigned(v: Numeral): Numeral
    requires v != [] && SignedDigits(v)
  {
    var top := v[|v| - 1];
    if top < 0 then v[..|v| - 1] + [-top] else v
  }

  lemma SameDigits(val: Numeral, w: Numeral, v: Numeral)
    requires v != [] && SignedDigits(v) && w == TopUnsigned(v) && val <= w && AllZero(w[|val|..])
    ensures Digits(val) <==> Digits(v[..|v| - 1])
  {
    assert forall k :: 0 <= k < |v| - 1 ==> w[k] == v[..|v| - 1][k];
    assert forall k :: |val| <= k < |w| ==> w[k] == w[|val|..][k - |val|] == 0;
    assert forall k :: 0 <= k < |val| ==> val[k] == w[k];
  }

  /** The limbs v have been read from the right, and s[..i] is still to be read. */
  ghost predicate LeftToRead(s: string, v: Numeral, i: nat) {
    i <= |s| && |s| == DIGIT_COUNT * |v| + i && v + ReadLimbs(s[..i]) == ReadLimbs(s)
  }

  lemma AllLeft(s: string)
    ensures LeftToRead(s, [], |s|)
  {
    assert s[..|s|] == s && [] + ReadLimbs(s) == ReadLimbs(s);
  }

  lemma OneMoreChunk(s: string, v: Numeral, i: nat)
    requires DIGIT_COUNT <= i && LeftToRead(s, v, i)
    ensures LeftToRead(s, v + [Chunk(s[i - DIGIT_COUNT..i])], i - DIGIT_COUNT)
  {
    var before, last := s[..i - DIGIT_COUNT], s[i - DIGIT_COUNT..i];
    assert s[..i][i - DIGIT_COUNT..] == last && s[..i][..i - DIGIT_COUNT] == before;
    assert ReadLimbs(s[..i]) == [Chunk(last)] + ReadLimbs(before) by {
      if i == DIGIT_COUNT {
        assert s[..i] == last && before == "";
      }
    }
    assert v + ([Chunk(last)] + ReadLimbs(before)) == v + [Chunk(last)] + ReadLimbs(before);
  }

  lemma LoneMinusLeft(s: string, v: Numeral, i: nat)
    requires i < DIGIT_COUNT && LeftToRead(s, v, i)
    ensures LoneMinus(s) <==> i == 1 && s[0] == '-'
  {
  }

  lemma TenNine()
    ensures Ten(DIGIT_COUNT) == BASE
  {
    assert Ten(3) == 1000;
    assert Ten(6) == 1_000_000;
  }

  lemma AtoiOfDigits(s: string)
    requires IsDigits(s)
    ensures Atoi(s) == DecimalValue(s)
    ensures Atoi("-" + s) == -DecimalValue(s)
  {
    assert ("-" + s)[1..] == s;
  }

  lemma {:induction false} TenOfChunks(k: nat)
    ensures Ten(DIGIT_COUNT * k) == Power(k)
  {
    if k == 0 {
    } else {
      TenOfChunks(k - 1);
      TenAdd(DIGIT_COUNT * (k - 1), DIGIT_COUNT);
      TenNine();
    }
  }

  /** Printing and reading back: the printed numeral denotes the number, its sign is seen, and 0 has no sign. */
  lemma TextRoundTrip(x: int)
    ensures IsNumeral(Text(x)) && Meaning(Text(x)) == x
    ensures Text(x)[0] == '-' <==> x < 0
    ensures x < 0 ==> SignIsSeen(Text(x))
  {
    var d := Decimal(Abs(x));
    DecimalRoundTrip(Abs(x));
    DecimalLeadingDigit(Abs(x));
    if x < 0 {
      assert Text(x)[1..] == d;
      var h := SignChunk(Text(x));
      if h != "" {
        assert h[0] == d[0];
        LeadingDigitPositive(h);
      }
    }
  }

  /** Different integers have different texts. */
  lemma TextInjective(x: int, y: int)
    requires Text(x) == Text(y)
    ensures x == y
  {
    TextRoundTrip(x);
    TextRoundTrip(y);
  }

  lemma PrependLimb(x: int32, v: Numeral)
    ensures Value([x] + v) == x as int + BASE * Value(v)
    ensures v != [] ==> ([x] + v)[|v|] == v[|v| - 1] && ([x] + v)[..|v|] == [x] + v[..|v| - 1]
  {
    assert ([x] + v)[1..] == v;
  }

  /** The last nine characters of a digit string make its lowest limb. */
  lemma LowChunk(high: string, low: string)
    requires IsDigits(high) && IsDigits(low) && |low| == DIGIT_COUNT
    ensures 0 <= Chunk(low) as int && DecimalValue(high + low) == Chunk(low) as int + BASE * DecimalValue(high)
  {
    AtoiOfDigits(low);
    DecimalValueAppend(high, low);
    TenNine();
  }

  lemma SplitAt(s: string)
    requires DIGIT_COUNT < |s|
    ensures var k := |s| - DIGIT_COUNT;
            s == s[..k] + s[k..] && |s[k..]| == DIGIT_COUNT
            && ReadLimbs(s) == [Chunk(s[k..])] + ReadLimbs(s[..k])
  {
  }

  /** Digits without a sign are read as the limbs of their value. */
  lemma {:induction false} PlainLimbs(s: string)
    requires s != "" && IsDigits(s)
    ensures var v := ReadLimbs(s); v != [] && Digits(v) && Value(v) == DecimalValue(s)
    decreases |s|
  {
    if |s| <= DIGIT_COUNT {
      AtoiOfDigits(s);
    } else {
      var high, low := s[..|s| - DIGIT_COUNT], s[|s| - DIGIT_COUNT..];
      SplitAt(s);
      PlainLimbs(high);
      LowChunk(high, low);
      PrependLimb(Chunk(low), ReadLimbs(high));
    }
  }

  /** Limbs read from a minus sign and digits of which the first h share the topmost chunk with the sign. */
  ghost predicate ReadSigned(v: Numeral, t: string, h: nat)
    requires IsDigits(t) && h <= |t|
  {
    if h == 0 then Digits(v) && Value(v) == DecimalValue(t)
    else && v != [] && Digits(v[..|v| - 1]) && v[|v| - 1] as int == -DecimalValue(t[..h])
         && SignedDigits(v) && Digits(TopUnsigned(v)) && Value(TopUnsigned(v)) == DecimalValue(t)
  }

  lemma {:induction false} SignedLimbs(t: string, h: nat)
    requires IsDigits(t) && h == |t| % DIGIT_COUNT
    ensures ReadSigned(ReadLimbs("-" + t), t, h)
    decreases |t|
  {
    if t == "" {
      assert "-" + t == "-";
    } else if |t| < DIGIT_COUNT {
      SignedTop(t, Chunk("-" + t));
    } else {
      var k := |t| - DIGIT_COUNT;
      var high, low := t[..k], t[k..];
      assert t == high + low;
      NineLess(|t|);
      SignedLimbs(high, h);
      LowChunk(high, low);
      SplitSigned(high, low);
      OneMoreSigned(Chunk(low), ReadLimbs("-" + high), high, low, h);
    }
  }

  lemma NineLess(n: nat)
    requires DIGIT_COUNT <= n
    ensures (n - DIGIT_COUNT) % DIGIT_COUNT == n % DIGIT_COUNT
  {
  }

  lemma SplitSigned(high: string, low: string)
    requires |low| == DIGIT_COUNT
    ensures ReadLimbs("-" + (high + low)) == [Chunk(low)] + ReadLimbs("-" + high)
  {
    var s := "-" + (high + low);
    SplitAt(s);
    assert s[..|high| + 1] == "-" + high && s[|high| + 1..] == low;
  }

  lemma SignedTop(t: string, x: int32)
    requires IsDigits(t) && 0 < |t| < DIGIT_COUNT && x == Chunk("-" + t)
    ensures ReadLimbs("-" + t) == [x] && ReadSigned([x], t, |t|)
  {
    AtoiOfDigits(t);
    assert t[..|t|] == t && [x][..0] == [];
    assert x as int == -DecimalValue(t);
    OneLimb(x);
  }

  lemma OneLimb(x: int32)
    requires -BASE < x as int <= 0
    ensures SignedDigits([x]) && Digits(TopUnsigned([x])) && Value(TopUnsigned([x])) == -(x as int)
  {
    assert [x][..0] + [-x] == [-x];
    assert Value([-x]) == -(x as int) + BASE * Value([]);
  }

  lemma PrependTop(x: int32, v: Numeral)
    requires v != [] && SignedDigits(v) && 0 <= x as int < BASE
    ensures SignedDigits([x] + v) && TopUnsigned([x] + v) == [x] + TopUnsigned(v)
    ensures Digits(v[..|v| - 1]) ==> Digits(([x] + v)[..|v|])
    ensures Digits(TopUnsigned(v)) ==> Digits([x] + TopUnsigned(v))
  {
    var w := [x] + v;
    assert w[|w| - 1] == v[|v| - 1] && w[..|w| - 1] == [x] + v[..|v| - 1];
  }

  lemma OneMoreSigned(x: int32, v: Numeral, high: string, low: string, h: nat)
    requires IsDigits(high) && IsDigits(low) && h <= |high| && ReadSigned(v, high, h) && 0 <= x as int < BASE
    requires IsDigits(high + low) && DecimalValue(high + low) == x as int + BASE * DecimalValue(high)
    ensures ReadSigned([x] + v, high + low, h)
  {
    PrependLimb(x, v);
    if h != 0 {
      assert (high + low)[..h] == high[..h];
      PrependTop(x, v);
      PrependLimb(x, TopUnsigned(v));
    }
  }

  /** A numeral is read as the limbs of its magnitude, and its sign is noticed when it is seen. */
  lemma NumeralLimbs(s: string)
    requires IsNumeral(s)
    ensures var v := ReadLimbs(s);
            && v != [] && Digits(v[..|v| - 1]) && Value(TopUnsigned(v)) == Abs(Meaning(s))
            && (!LoneMinus(s) && 0 <= v[|v| - 1] <==> !(s[0] == '-' && SignIsSeen(s)))
  {
    if s[0] == '-' {
      assert s == "-" + s[1..];
      SignedNumeral(s, s[1..], (|s| - 1) % DIGIT_COUNT);
    } else {
      PlainNumeral(s);
    }
  }

  lemma PlainNumeral(s: string)
    requires s != "" && IsDigits(s)
    ensures s[0] != '-' && !LoneMinus(s)
    ensures var v := ReadLimbs(s);
            v != [] && 0 <= v[|v| - 1] && Digits(v[..|v| - 1]) && Value(TopUnsigned(v)) == DecimalValue(s)
  {
    PlainLimbs(s);
    assert IsDigit(s[0]);
  }

  lemma SignedNumeral(s: string, t: string, h: nat)
    requires t != "" && IsDigits(t) && s == "-" + t && h == |t| % DIGIT_COUNT
    ensures IsNumeral(s) && s[0] == '-'
    ensures var v := ReadLimbs(s);
            && v != [] && Digits(v[..|v| - 1]) && Value(TopUnsigned(v)) == Abs(Meaning(s))
            && (!LoneMinus(s) && 0 <= v[|v| - 1] <==> !SignIsSeen(s))
  {
    var v := ReadLimbs(s);
    SignSeen(s, t, h);
    assert ReadSigned(v, t, h) by {
      SignedLimbs(t, h);
    }
    SignRead(v, t, h);
  }

  lemma SignSeen(s: string, t: string, h: nat)
    requires t != "" && IsDigits(t) && s == "-" + t && h == |t| % DIGIT_COUNT
    ensures IsNumeral(s) && s[0] == '-' && Meaning(s) == -DecimalValue(t)
    ensures LoneMinus(s) <==> h == 0
    ensures SignIsSeen(s) <==> h == 0 || DecimalValue(t[..h]) != 0
  {
    assert s[1..] == t && SignChunk(s) == t[..h];
    OneMore(|t|, h);
  }

  lemma OneMore(n: nat, h: nat)
    requires h == n % DIGIT_COUNT
    ensures (n + 1) % DIGIT_COUNT == 1 <==> h == 0
  {
  }

  lemma SignRead(v: Numeral, t: string, h: nat)
    requires t != "" && IsDigits(t) && h <= |t| && ReadSigned(v, t, h) && v != [] && SignedDigits(v)
    ensures Digits(v[..|v| - 1]) && Value(TopUnsigned(v)) == DecimalValue(t)
    ensures h == 0 ==> 0 <= v[|v| - 1]
    ensures 0 < h ==> (0 <= v[|v| - 1] <==> DecimalValue(t[..h]) == 0)
  {
  }

  /** The numeral of a number of several limbs, with its lowest limb split off. */
  lemma LimbText(low: int, high: int)
    requires 0 <= low < BASE && 0 < high
    ensures Decimal(low + BASE * high) == Decimal(high) + PadLeft(Decimal(low), DIGIT_COUNT)
  {
    TenNine();
    PaddedIsPadLeft(low, DIGIT_COUNT);
    DecimalSplit(high, low, DIGIT_COUNT);
  }

  /** How many digits a number has whose topmost limb of n + 1 has k of them. */
  lemma DigitsOfTop(value: int, top: int, n: nat, k: nat)
    requires 1 <= k && 0 < top && Ten(k - 1) <= top < Ten(k)
    requires Power(n) * top <= value < Power(n) * (top + 1)
    ensures |Decimal(value)| == DIGIT_COUNT * n + k
  {
    var low, high := Power(n) * Ten(k - 1), Power(n) * Ten(k);
    assert low <= value < high by {
      MultiplyBothSides(Ten(k - 1), top, Power(n));
      MultiplyBothSides(top + 1, Ten(k), Power(n));
    }
    assert Ten(DIGIT_COUNT * n + (k - 1)) == low by {
      TenOfChunks(n);
      TenAdd(DIGIT_COUNT * n, k - 1);
    }
    assert Ten(DIGIT_COUNT * n + k) == high by {
      TenOfChunks(n);
      TenAdd(DIGIT_COUNT * n, k);
    }
    DecimalLengthUnique(value, DIGIT_COUNT * n + k);
  }

  lemma LimbDigits(x: int, k: nat)
    requires 0 < x < BASE
    requires k == if x > 99_999_999 then 9 else if x > 9_999_999 then 8 else if x > 999_999 then 7
                  else if x > 99_999 then 6 else if x > 9_999 then 5 else if x > 999 then 4
                  else if x > 99 then 3 else if x > 9 then 2 else 1
    ensures 1 <= k && Ten(k - 1) <= x < Ten(k)
  {
    assert Ten(3) == 1000;
    assert Ten(6) == 1_000_000;
    assert Ten(9) == BASE;
  }
}
