/** Where the in-place operators of the integers meet the laws of arithmetic, and where they do not. */
module InfIntLaws {
  import opened MachineInts
  import opened Limbs
  import opened IntText
  import opened Decimals

  /** What `a %= b` leaves: a negative dividend is not reduced. */
  function ModuloInPlace(a: int, b: int): int {
    if b == 0 || a < 0 then a else Rem(a, b)
  }

  /** What `a /= b` leaves; a negative number divided by the same object comes out as -1. */
  function QuotientInPlace(a: int, b: int, sameObject: bool): int {
    if b == 0 then a else if sameObject && a < 0 then -1 else Quot(a, b)
  }

  /** `a %= b` is the remainder for these dividends and no others. */
  lemma ModuloAssignExact(a: int, b: int)
    requires b != 0
    ensures ModuloInPlace(a, b) == Rem(a, b) <==> 0 <= a || Abs(a) < Abs(b)
  {
    QuotRemLaw(a, b);
    if a < 0 && Abs(a) < Abs(b) {
      QuotRemUnique(a, b, 0, a);
    }
  }

  /** -7 %= 3 leaves -7; the remainder is -1. */
  lemma ModuloAssignFails()
    ensures ModuloInPlace(-7, 3) == -7 && Rem(-7, 3) == -1
  {
    QuotRemUnique(-7, 3, -2, -1);
  }

  /** `a /= b` is the quotient unless a is negative and b is the same object; the quotient is 1 then. */
  lemma DivideAssignExact(a: int, b: int, sameObject: bool)
    requires b != 0 && (sameObject ==> a == b)
    ensures QuotientInPlace(a, b, sameObject) == Quot(a, b) <==> !sameObject || 0 < a
    ensures sameObject ==> Quot(a, b) == 1
  {
    if sameObject {
      QuotRemUnique(a, a, 1, 0);
    }
  }

  /** What a negative number with every digit looks like. */
  lemma NegativeText()
    ensures Text(-1_234_567_890) == "-1234567890"
  {
    EveryDigit();
  }

  /** Reading a signed numeral gives its meaning just when the sign is seen or the meaning is 0; the numeral
      "-0" followed by the nine digits of any positive n is read as n. */
  lemma SignLost(n: int)
    requires 0 < n < BASE
    ensures var s := "-0" + Padded(n, DIGIT_COUNT);
            IsNumeral(s) && !SignIsSeen(s) && Meaning(s) == -n
  {
    var t := Padded(n, DIGIT_COUNT);
    var s := "-0" + t;
    assert s[1..] == "0" + t && ("0" + t)[..1] == "0" && "0"[..0] == "";
    TenNine();
    PaddedValue(n, DIGIT_COUNT);
    DecimalValueAppend("0", t);
  }
}
