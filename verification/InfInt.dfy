/** Arbitrary-precision integers: a sign and a vector of limbs, updated in place. */
module InfInts {
  import opened MachineInts
  import opened Limbs
  import opened Decimals
  import opened InfIntLaws
  import opened IntText
  import opened SquareRoots

  /** The call div(limb, BASE). */
  method DivideByBase(limb: int32) returns (quot: int32, rem: int32)
    ensures IsQuotRem(limb as int, BASE, quot as int, rem as int)
    ensures -2 <= quot <= 2
  {
    TruncateLimb(limb);
    QuotRemLaw(limb as int, BASE);
    quot := Quot(limb as int, BASE) as int32;
    rem := Rem(limb as int, BASE) as int32;
  }

  class InfInt {
    var pos: bool
    var val: Numeral

    ghost predicate Valid()
      reads this
    {
      Canonical(val) && (Value(val) == 0 ==> pos)
    }

    /** The integer this object stands for. */
    ghost function ToInt(): int
      reads this
    {
      Signed(pos, Value(val))
    }

    /** The body of the truncation loop: move the excess of limb i one position up. */
    method TruncateLimbAt(i: nat)
      requires i < |val|
      requires i + 1 < |val| ==> Abs(val[i + 1] as int) <= 2 * UPPER_BOUND || Abs(val[i] as int) < BASE
      modifies this`val
      ensures |val| == |old(val)| || (i + 1 == |old(val)| == |val| - 1 && Abs(val[i + 1] as int) <= 2)
      ensures Value(val) == Value(old(val)) && -BASE < val[i] as int < BASE
      ensures forall k :: 0 <= k < |old(val)| && k != i && k != i + 1 ==> val[k] == old(val)[k]
      ensures i + 1 < |old(val)| ==> Abs(val[i + 1] as int - old(val)[i + 1] as int) <= 2
      ensures -BASE < old(val)[i] as int < BASE ==> val == old(val)
    {
      if val[i] as int >= BASE || val[i] as int <= -BASE {
        var quot, rem := DivideByBase(val[i]);
        ghost var before := val;
        if i + 1 >= |val| {
          val := val[i := rem] + [quot];
          CarryOutPreservesValue(before, rem, quot);
        } else {
          val := val[i := rem];
          val := val[i + 1 := val[i + 1] + quot];
          ExchangePreservesValue(before, val, i, -(quot as int));
        }
      }
    }

    method TruncateToBase()
      requires Correctable(val)
      modifies this`val
      ensures |old(val)| <= |val| <= |old(val)| + 1
      ensures SignedDigits(val) && Value(val) == Value(old(val))
      ensures SignedDigits(old(val)) ==> val == old(val)
    {
      ghost var v := val;
      ghost var n := |v|;
      ghost var small := SignedDigits(v[..n - 1]);
      assert small ==> forall k :: 0 <= k < n - 1 ==> v[..n - 1][k] == v[k];
      var i := 0;
      while i < |val|
        invariant i <= |val| && n <= |val| <= n + 1 && (i < n ==> |val| == n)
        invariant forall k :: 0 <= k < i ==> -BASE < val[k] as int < BASE
        invariant forall k :: i < k < n ==> val[k] == v[k]
        invariant i < n ==> Abs(val[i] as int - v[i] as int) <= 2
        invariant i < n && small ==> val[i] == v[i]
        invariant |val| == n + 1 ==> Abs(val[n] as int) <= 2
        invariant Value(val) == Value(v)
        invariant SignedDigits(v) ==> val == v
        decreases n + 1 - i
      {
        TruncateLimbAt(i);
        i := i + 1;
      }
    }

    /** Count the zero limbs next above limb i; some limb above it is not zero. */
    method SkipZeros(i: nat) returns (k: nat, index: nat)
      requires i < |val| && Value(val[i + 1..]) != 0
      ensures index == i + 1 + k && index < |val| && val[index] != 0
      ensures forall j :: i < j < index ==> val[j] == 0
    {
      k, index := 0, i + 1;
      while index < |val| && val[index] == 0
        invariant index == i + 1 + k && index <= |val|
        invariant forall j :: i < j < index ==> val[j] == 0
      {
        k, index := k + 1, index + 1;
      }
      if index == |val| {
        ValueOfZeros(val[i + 1..]);
        assert false;
      }
    }

    /** Limb i has the wrong sign: borrow BASE from the nearest non-zero limb above it. */
    method Borrow(i: nat, positive: bool)
      requires i < |val| && SignedDigits(val) && Signed(positive, val[i] as int) < 0
      requires OneSigned(val[i + 1..], positive) && Value(val[i + 1..]) != 0
      modifies this`val
      ensures |val| == |old(val)| && val[..i] == old(val)[..i]
      ensures OneSigned(val[i..], positive) && Value(val[i..]) == Value(old(val)[i..])
    {
      ghost var v := val;
      var k, index := SkipZeros(i);
      assert v[index] == v[i + 1..][index - i - 1];
      val := val[index := val[index] - Signed(positive, 1) as int32];
      val := val[i := val[i] + Signed(positive, BASE) as int32];
      ghost var w := val;
      while k > 0
        invariant 0 <= k < index - i && |val| == |v|
        invariant forall j :: 0 <= j < |v| && !(i + k < j < index) ==> val[j] == w[j]
        invariant forall j :: i + k < j < index ==> val[j] as int == Signed(positive, UPPER_BOUND)
      {
        val := val[i + k := Signed(positive, UPPER_BOUND) as int32];
        k := k - 1;
      }
      BorrowPreservesValue(v[i..], val[i..], index - i, positive);
      assert forall j :: i < j < |v| ==> v[j] == v[i + 1..][j - i - 1];
    }

    /** Give every limb below position top the sign of the limbs from top upward. */
    method SettleBelow(top: nat, positive: bool)
      requires top <= |val| && SignedDigits(val)
      requires OneSigned(val[top..], positive) && (0 < top ==> Value(val[top..]) != 0)
      modifies this`val
      ensures |val| == |old(val)| && OneSigned(val, positive) && Value(val) == Value(old(val))
      ensures Value(old(val)[top..]) != 0 ==> Value(val) != 0
    {
      ghost var v := val;
      var i := top - 1;
      while i >= 0
        invariant -1 <= i < |val| == |v| && SignedDigits(val)
        invariant OneSigned(val[i + 1..], positive)
        invariant 0 < top || Value(v[top..]) != 0 ==> Value(val[i + 1..]) != 0
        invariant Value(val) == Value(v)
      {
        ghost var u := val;
        if Signed(positive, val[i] as int) < 0 {
          Borrow(i, positive);
          assert forall j :: 0 <= j < i ==> val[j] == val[..i][j] == u[..i][j] == u[j];
          assert forall j :: i <= j < |v| ==> val[j] == val[i..][j - i];
          ValueOfSuffix(u, val, i);
        }
        assert u[i..][1..] == u[i + 1..];
        i := i - 1;
      }
      assert val[0..] == val;
    }

    /** Make all limbs of one sign, that of the highest non-zero limb; true if it is positive. */
    method EqualizeSigns() returns (isPositive: bool)
      requires SignedDigits(val)
      modifies this`val
      ensures |val| == |old(val)| && Value(val) == Value(old(val))
      ensures OneSigned(val, isPositive) && (isPositive <==> 0 <= Value(val))
    {
      isPositive := true;
      var i := |val| - 1;
      while i >= 0
        invariant -1 <= i < |val| && AllZero(val[i + 1..])
      {
        if val[i] != 0 {
          isPositive := val[i] > 0;
          assert val[i..][1..] == val[i + 1..];
          ValueOfZeros(val[i + 1..]);
          i := i - 1;
          break;
        }
        i := i - 1;
      }
      SettleBelow(i + 1, isPositive);
      OneSignedValue(val, isPositive);
    }

    method RemoveLeadingZeros()
      requires val != []
      modifies this`val
      ensures val != [] && val <= old(val) && Value(val) == Value(old(val)) && AllZero(old(val)[|val|..])
      ensures 1 < |val| ==> val[|val| - 1] != 0
    {
      ghost var v := val;
      var i := |val| - 1;
      while i > 0
        invariant 0 <= i < |v| && val == v[..i + 1] && AllZero(v[i + 1..])
      {
        if val[i] != 0 {
          ValueOfPrefix(v, i + 1);
          return;
        }
        val := val[..i];
        i := i - 1;
      }
      ValueOfPrefix(v, 1);
    }

    /** Bring limbs and sign back to canonical form. */
    method Correct(justCheckLeadingZeros: bool := false, hasValidSign: bool := false)
      requires if justCheckLeadingZeros then val != [] else Correctable(val)
      modifies this
      ensures val != [] && (1 < |val| ==> val[|val| - 1] != 0)
      ensures justCheckLeadingZeros ==>
                pos == old(pos) && val <= old(val) && Value(val) == Value(old(val)) && AllZero(old(val)[|val|..])
      ensures !justCheckLeadingZeros ==> Canonical(val) && Value(val) == Abs(Value(old(val)))
      ensures !justCheckLeadingZeros ==>
                pos == if Value(old(val)) < 0 then hasValidSign && !old(pos)
                       else !hasValidSign || old(pos) || (Value(old(val)) == 0 && |old(val)| == 1)
    {
      ghost var v := val;
      if !justCheckLeadingZeros {
        TruncateToBase();
        var isPositive := EqualizeSigns();
        assert Value(v) == 0 && |v| == 1 <==> |val| == 1 && val[0] == 0 by {
          assert |val| == 1 ==> val == [val[0]] && Value(val) == val[0] as int;
          assert |v| == 1 ==> v == [v[0]] && Value(v) == v[0] as int;
        }
        if isPositive {
          pos := if (|val| == 1 && val[0] == 0) || !hasValidSign then true else pos;
        } else {
          pos := if hasValidSign then !pos else false;
          AbsoluteValues();
        }
      }
      RemoveLeadingZeros();
    }

    method AbsoluteValues()
      requires OneSigned(val, false)
      modifies this`val
      ensures |val| == |old(val)| && Digits(val) && Value(val) == -Value(old(val))
    {
      ghost var v := val;
      for i := 0 to |val|
        invariant |val| == |v|
        invariant forall k :: 0 <= k < |v| ==> val[k] as int == if k < i then -(v[k] as int) else v[k] as int
      {
        val := val[i := if val[i] < 0 then -val[i] else val[i]];
      }
      ValueOfNegation(v, val);
    }

    /** The number 0. */
    constructor ()
      ensures Valid() && ToInt() == 0
    {
      pos, val := true, [0];
    }

    /** A copy of another number. */
    constructor Copy(other: InfInt)
      ensures pos == other.pos && val == other.val
    {
      pos, val := other.pos, other.val;
    }

    method Plus(rhs: InfInt) returns (result: InfInt)
      requires Valid() && rhs.Valid()
      ensures fresh(result) && result.Valid() && result.ToInt() == ToInt() + rhs.ToInt()
    {
      result := new InfInt();
      result.val := seq(if |val| > |rhs.val| then |val| else |rhs.val|, _ => 0);
      for i := 0 to |result.val|
        invariant |result.val| == if |val| > |rhs.val| then |val| else |rhs.val|
        invariant SumOfLimbs(val, pos, rhs.val, rhs.pos, result.val, i)
      {
        result.val := result.val[i :=
          (if i < |val| then if pos then val[i] else -val[i] else 0)
          + (if i < |rhs.val| then if rhs.pos then rhs.val[i] else -rhs.val[i] else 0)];
      }
      CanonicalSum(val, pos, rhs.val, rhs.pos, result.val);
      result.Correct();
    }

    method Minus(rhs: InfInt) returns (result: InfInt)
      requires Valid() && rhs.Valid()
      ensures fresh(result) && result.Valid() && result.ToInt() == ToInt() - rhs.ToInt()
    {
      result := new InfInt();
      result.val := seq(if |val| > |rhs.val| then |val| else |rhs.val|, _ => 0);
      for i := 0 to |result.val|
        invariant |result.val| == if |val| > |rhs.val| then |val| else |rhs.val|
        invariant SumOfLimbs(val, pos, rhs.val, !rhs.pos, result.val, i)
      {
        result.val := result.val[i :=
          (if i < |val| then if pos then val[i] else -val[i] else 0)
          - (if i < |rhs.val| then if rhs.pos then rhs.val[i] else -rhs.val[i] else 0)];
      }
      CanonicalSum(val, pos, rhs.val, !rhs.pos, result.val);
      result.Correct();
    }

    /** val.resize(n, 0) to at least the size of another vector. */
    method ResizeFor(n: nat)
      modifies this`val
      ensures |val| == if n > |old(val)| then n else |old(val)|
      ensures forall k :: 0 <= k < |val| ==> val[k] as int == LimbAt(old(val), k)
    {
      if n > |val| {
        val := val + seq(n - |val|, _ => 0);
      }
    }

    /** In-place addition; rhs may be this object itself. */
    method AddAssign(rhs: InfInt)
      requires Valid() && rhs.Valid()
      modifies this
      ensures Valid() && ToInt() == old(ToInt()) + old(rhs.ToInt())
    {
      ghost var a, b := val, rhs.val;
      ResizeFor(|rhs.val|);
      for i := 0 to |val|
        invariant |val| == (if |b| > |a| then |b| else |a|) && pos == old(pos)
        invariant rhs != this ==> rhs.val == b && rhs.pos == old(rhs.pos)
        invariant SumOfLimbs(a, old(pos), b, old(rhs.pos), val, i)
        invariant forall k :: i <= k < |val| ==> val[k] as int == LimbAt(a, k)
      {
        val := val[i := (if pos then val[i] else -val[i])
                        + (if i < |rhs.val| then if rhs.pos then rhs.val[i] else -rhs.val[i] else 0)];
      }
      CanonicalSum(a, old(pos), b, old(rhs.pos), val);
      Correct();
    }

    /** In-place subtraction; rhs may be this object itself. */
    method SubtractAssign(rhs: InfInt)
      requires Valid() && rhs.Valid()
      modifies this
      ensures Valid() && ToInt() == old(ToInt()) - old(rhs.ToInt())
    {
      ghost var a, b := val, rhs.val;
      ResizeFor(|rhs.val|);
      for i := 0 to |val|
        invariant |val| == (if |b| > |a| then |b| else |a|) && pos == old(pos)
        invariant rhs != this ==> rhs.val == b && rhs.pos == old(rhs.pos)
        invariant SumOfLimbs(a, old(pos), b, !old(rhs.pos), val, i)
        invariant forall k :: i <= k < |val| ==> val[k] as int == LimbAt(a, k)
      {
        val := val[i := (if pos then val[i] else -val[i])
                        - (if i < |rhs.val| then if rhs.pos then rhs.val[i] else -rhs.val[i] else 0)];
      }
      CanonicalSum(a, old(pos), b, !old(rhs.pos), val);
      Correct();
    }

    method Increment()
      requires Valid()
      modifies this
      ensures Valid() && ToInt() == old(ToInt()) + 1
    {
      ghost var v := val;
      val := val[0 := val[0] + if pos then 1 else -1];
      assert val[1..] == v[1..];
      CanonicalLowerBound(v);
      Correct(false, true);
    }

    method Decrement()
      requires Valid()
      modifies this
      ensures Valid() && ToInt() == old(ToInt()) - 1
    {
      ghost var v := val;
      val := val[0 := val[0] - if pos then 1 else -1];
      assert val[1..] == v[1..];
      CanonicalLowerBound(v);
      Correct(false, true);
    }

    /** Flipping the sign negates, and leaves a valid number just when that number is not 0. */
    method Negated() returns (result: InfInt)
      requires Valid()
      ensures fresh(result) && result.pos == !pos && result.val == val && result.ToInt() == -ToInt()
      ensures result.Valid() <==> ToInt() != 0
    {
      result := new InfInt.Copy(this);
      result.pos := !pos;
      ValueBound(val);
    }

    /** One step of MultiplyByDigit. `carry * BASE` wraps in 32 bits, yet the limb stored is exact. */
    static method DigitProduct(x: int32, factor: int32, carryIn: int32) returns (limb: int32, carry: int32)
      requires 0 <= x as int < BASE && 0 <= factor && 0 <= carryIn && (carryIn == 0 || carryIn < factor)
      ensures x as int * factor as int + carryIn as int == carry as int * BASE + limb as int
      ensures 0 <= limb as int < BASE && 0 <= carry && (carry == 0 || carry < factor)
    {
      DigitProductBound(x as int, factor as int, carryIn as int);
      var pval := (x as int * factor as int + carryIn as int) as int64;
      ghost var exact := pval as int;
      if pval as int >= BASE || pval as int <= -BASE {
        carry := (pval as int / BASE) as int32;
        pval := pval - Wrap32(carry as int * BASE) as int64;
      } else {
        carry := 0;
      }
      WrapCancels(exact, carry as int * BASE);
      limb := Wrap32(pval as int) as int32;
    }

    /** Multiply a vector in place by one non-negative digit. */
    static method MultiplyByDigit(factor: int32, v: Numeral) returns (w: Numeral)
      requires 0 <= factor && v != [] && Digits(v)
      ensures Correctable(w) && 0 <= Value(w) == factor as int * Value(v)
    {
      var carry: int32 := 0;
      w := v;
      for i := 0 to |v|
        invariant |w| == |v| && Digits(w) && forall k :: i <= k < |v| ==> w[k] == v[k]
        invariant 0 <= carry && (carry == 0 || carry < factor)
        invariant Value(w[..i]) + Power(i) * carry as int == factor as int * Value(v[..i])
      {
        var limb, next := DigitProduct(w[i], factor, carry);
        ghost var u := w;
        w := w[i := limb];
        assert w[..i] == u[..i];
        DigitProductStep(v, w, i, factor as int, carry as int, next as int);
        carry := next;
      }
      assert w[..|v|] == w && v[..|v|] == v;
      ValueBound(v);
      MultiplyBothSides(0, Value(v), factor as int);
      if carry > 0 {
        ValueSnoc(w, carry);
        w := w + [carry];
        assert w[..|w| - 1] == w[..|v|];
      }
    }

    /** Add the product of two limbs to a limb, moving the excess to the carry. */
    static method AddProduct(x: int32, y: int32, limbIn: int32, carryIn: nat) returns (limb: int32, carry: nat)
      requires 0 <= x as int < BASE && 0 <= y as int < BASE && 0 <= limbIn as int < BASE
      ensures limb as int + BASE * carry == limbIn as int + BASE * carryIn + x as int * y as int
      ensures 0 <= limb as int < BASE && carryIn <= carry <= carryIn + UPPER_BOUND
    {
      MultiplyBothSides(y as int, UPPER_BOUND, x as int);
      carry := carryIn;
      var pval: int64 := (limbIn as int + x as int * y as int) as int64;
      if pval as int >= BASE || pval as int <= -BASE {
        var quot := pval as int / BASE;
        carry := carry + quot;
        pval := (pval as int - quot * BASE) as int64;
      }
      limb := pval as int32;
    }

    /** One column of the product: all products of limbs whose positions add up to digit. */
    static method AccumulateColumn(a: Numeral, b: Numeral, digit: nat, limbIn: int32, carryIn: nat)
      returns (limb: int32, carry: nat, found: bool)
      requires a != [] && b != [] && Digits(a) && Digits(b) && 0 <= limbIn as int < BASE
      ensures limb as int + BASE * carry == limbIn as int + BASE * carryIn + ColumnPart(a, b, digit, |a|)
      ensures 0 <= limb as int < BASE && carryIn <= carry <= carryIn + |a| * UPPER_BOUND
      ensures found <==> digit < |a| + |b| - 1
      ensures !found ==> limb == limbIn && carry == carryIn
    {
      limb, carry, found := limbIn, carryIn, false;
      var i := if digit < |b| then 0 else digit - |b| + 1;
      ghost var start := i;
      ColumnOutside(a, b, digit, if i < |a| then i else |a|);
      while i < |a| && i <= digit
        invariant start <= i <= digit + 1 && if start < |a| then i <= |a| else i == start
        invariant (found <==> start < i) && (!found ==> limb == limbIn && carry == carryIn)
        invariant 0 <= limb as int < BASE && carryIn <= carry <= carryIn + (i - start) * UPPER_BOUND
        invariant limb as int + BASE * carry
                  == limbIn as int + BASE * carryIn + ColumnPart(a, b, digit, if i < |a| then i else |a|)
      {
        limb, carry := AddProduct(a[i], b[digit - i], limb, carry);
        found := true;
        i := i + 1;
      }
      if i < |a| {
        ColumnAbove(a, b, digit, i, |a|);
      }
    }

    /** The column loop of multiplication; the carry left when no column remains is always 0. */
    static method ColumnProduct(a: Numeral, b: Numeral) returns (w: Numeral)
      requires a != [] && b != [] && Digits(a) && Digits(b)
      ensures |w| == |a| + |b| && Digits(w) && Value(w) == Value(a) * Value(b)
    {
      w := seq(|a| + |b|, _ => 0);
      var carry, digit := 0, 0;
      while true
        invariant digit < |w| == |a| + |b| && 0 <= carry <= |a| * BASE && Digits(w)
        invariant Value(w[..digit]) + Power(digit) * carry == Columns(a, b, digit)
        decreases |w| - digit
      {
        var oldcarry := carry;
        carry := carry / BASE;
        var limb := (oldcarry - carry * BASE) as int32;
        ghost var u := w;
        w := w[digit := limb];
        assert w[..digit] == u[..digit];
        var next, found;
        limb, next, found := AccumulateColumn(a, b, digit, limb, carry);
        if !found {
          ColumnOutside(a, b, digit, |a|);
          ColumnsMakeProduct(a, b, digit);
          ProductFits(a, b);
          NoFinalCarry(w, Columns(a, b, digit), oldcarry, carry);
          break;
        }
        w, carry := w[digit := limb], next;
        assert w[..digit] == u[..digit];
        ColumnStep(a, b, w, digit, oldcarry, carry);
        digit := digit + 1;
      }
      assert carry == 0; // the loop that would store a remaining carry is never entered
    }

    method Times(rhs: InfInt) returns (result: InfInt)
      requires Valid() && rhs.Valid()
      ensures fresh(result) && result.Valid() && result.ToInt() == ToInt() * rhs.ToInt()
    {
      result := new InfInt();
      result.val := ColumnProduct(val, rhs.val);
      ValueBound(result.val);
      result.Correct();
      result.SetSign(pos == rhs.pos);
      SignedProduct(pos, Value(val), rhs.pos, Value(rhs.val));
    }

    /** The sign assigned to a corrected magnitude: zero is always positive. */
    method SetSign(positive: bool)
      requires Canonical(val)
      modifies this`pos
      ensures Valid() && ToInt() == Signed(positive, Value(val))
    {
      CanonicalZero(val);
      pos := if |val| == 1 && val[0] == 0 then true else positive;
    }

    method Equal(rhs: InfInt) returns (b: bool)
      requires Valid() && rhs.Valid()
      ensures b <==> ToInt() == rhs.ToInt()
    {
      ValueBound(val);
      ValueBound(rhs.val);
      if pos != rhs.pos || |val| != |rhs.val| {
        if |val| != |rhs.val| { LengthOrder(val, rhs.val); }
        return false;
      }
      for i := |val| downto 0
        invariant val[i..] == rhs.val[i..]
      {
        if val[i] != rhs.val[i] {
          LimbOrder(val, rhs.val, i);
          return false;
        }
      }
      assert val == val[0..] == rhs.val[0..] == rhs.val;
      return true;
    }

    method NotEqual(rhs: InfInt) returns (b: bool)
      requires Valid() && rhs.Valid()
      ensures b <==> ToInt() != rhs.ToInt()
    {
      ValueBound(val);
      ValueBound(rhs.val);
      if pos != rhs.pos || |val| != |rhs.val| {
        if |val| != |rhs.val| { LengthOrder(val, rhs.val); }
        return true;
      }
      for i := |val| downto 0
        invariant val[i..] == rhs.val[i..]
      {
        if val[i] != rhs.val[i] {
          LimbOrder(val, rhs.val, i);
          return true;
        }
      }
      assert val == val[0..] == rhs.val[0..] == rhs.val;
      return false;
    }

    method Less(rhs: InfInt) returns (b: bool)
      requires Valid() && rhs.Valid()
      ensures b <==> ToInt() < rhs.ToInt()
    {
      ValueBound(val);
      ValueBound(rhs.val);
      if pos && !rhs.pos { return false; }
      if !pos && rhs.pos { return true; }
      if |val| != |rhs.val| { LengthOrder(val, rhs.val); }
      if |val| > |rhs.val| { return !pos; }
      if |val| < |rhs.val| { return pos; }
      for i := |val| downto 0
        invariant val[i..] == rhs.val[i..]
      {
        if val[i] != rhs.val[i] { LimbOrder(val, rhs.val, i); }
        if val[i] < rhs.val[i] { return pos; }
        if val[i] > rhs.val[i] { return !pos; }
      }
      assert val == val[0..] == rhs.val[0..] == rhs.val;
      return false;
    }

    method LessEqual(rhs: InfInt) returns (b: bool)
      requires Valid() && rhs.Valid()
      ensures b <==> ToInt() <= rhs.ToInt()
    {
      ValueBound(val);
      ValueBound(rhs.val);
      if pos && !rhs.pos { return false; }
      if !pos && rhs.pos { return true; }
      if |val| != |rhs.val| { LengthOrder(val, rhs.val); }
      if |val| > |rhs.val| { return !pos; }
      if |val| < |rhs.val| { return pos; }
      for i := |val| downto 0
        invariant val[i..] == rhs.val[i..]
      {
        if val[i] != rhs.val[i] { LimbOrder(val, rhs.val, i); }
        if val[i] < rhs.val[i] { return pos; }
        if val[i] > rhs.val[i] { return !pos; }
      }
      assert val == val[0..] == rhs.val[0..] == rhs.val;
      return true;
    }

    method Greater(rhs: InfInt) returns (b: bool)
      requires Valid() && rhs.Valid()
      ensures b <==> ToInt() > rhs.ToInt()
    {
      ValueBound(val);
      ValueBound(rhs.val);
      if pos && !rhs.pos { return true; }
      if !pos && rhs.pos { return false; }
      if |val| != |rhs.val| { LengthOrder(val, rhs.val); }
      if |val| > |rhs.val| { return pos; }
      if |val| < |rhs.val| { return !pos; }
      for i := |val| downto 0
        invariant val[i..] == rhs.val[i..]
      {
        if val[i] != rhs.val[i] { LimbOrder(val, rhs.val, i); }
        if val[i] < rhs.val[i] { return !pos; }
        if val[i] > rhs.val[i] { return pos; }
      }
      assert val == val[0..] == rhs.val[0..] == rhs.val;
      return false;
    }

    method GreaterEqual(rhs: InfInt) returns (b: bool)
      requires Valid() && rhs.Valid()
      ensures b <==> ToInt() >= rhs.ToInt()
    {
      ValueBound(val);
      ValueBound(rhs.val);
      if pos && !rhs.pos { return true; }
      if !pos && rhs.pos { return false; }
      if |val| != |rhs.val| { LengthOrder(val, rhs.val); }
      if |val| > |rhs.val| { return pos; }
      if |val| < |rhs.val| { return !pos; }
      for i := |val| downto 0
        invariant val[i..] == rhs.val[i..]
      {
        if val[i] != rhs.val[i] { LimbOrder(val, rhs.val, i); }
        if val[i] < rhs.val[i] { return !pos; }
        if val[i] > rhs.val[i] { return pos; }
      }
      assert val == val[0..] == rhs.val[0..] == rhs.val;
      return true;
    }

    /** Multiplication by one digit of either sign; the program negates it, so it must not be INT_MIN. */
    method TimesDigit(rhs: int32) returns (result: InfInt)
      requires Valid() && rhs != -0x8000_0000
      ensures fresh(result) && result.Valid() && result.ToInt() == ToInt() * rhs as int
    {
      result := new InfInt.Copy(this);
      var factor := if rhs < 0 then -rhs else rhs;
      result.val := MultiplyByDigit(factor, result.val);
      result.Correct();
      result.SetSign(pos == (rhs >= 0));
      SignedDigitProduct(pos, Value(val), rhs as int);
    }

    method MultiplyDigitAssign(rhs: int32)
      requires Valid() && rhs != -0x8000_0000
      modifies this
      ensures Valid() && ToInt() == old(ToInt()) * rhs as int
    {
      var factor := if rhs < 0 then -rhs else rhs;
      var oldpos := pos;
      ghost var v := val;
      val := MultiplyByDigit(factor, val);
      Correct();
      SetSign(oldpos == (rhs >= 0));
      SignedDigitProduct(oldpos, Value(v), rhs as int);
    }

    method MultiplyAssign(rhs: InfInt)
      requires Valid() && rhs.Valid()
      modifies this
      ensures Valid() && ToInt() == old(ToInt()) * old(rhs.ToInt())
    {
      var product := Times(rhs);
      pos, val := product.pos, product.val;
    }

    /** The number of times D goes into R, found by halving the range [0, BASE). */
    static method DInR(R: InfInt, D: InfInt) returns (cnt: int32)
      requires R.Valid() && D.Valid() && 0 < D.ToInt() && R.ToInt() < D.ToInt() * BASE
      ensures 0 <= cnt as int < BASE
      ensures if R.ToInt() < 0 then cnt == 0
              else D.ToInt() * cnt as int <= R.ToInt() < D.ToInt() * (cnt as int + 1)
    {
      ghost var r, d := R.ToInt(), D.ToInt();
      var min: int32, max: int32 := 0, UPPER_BOUND as int32;
      while max - min > 0
        invariant 0 <= min <= max && max as int <= UPPER_BOUND
        invariant if r < 0 then min == 0 else d * min as int <= r < d * (max as int + 1)
        decreases max - min
      {
        var avg := max + min;
        avg := if avg % 2 != 0 then avg / 2 + 1 else avg / 2;
        var prod := D.TimesDigit(avg);
        ghost var p := prod.ToInt();
        assert p == d * avg as int;
        var same := R.Equal(prod);
        MultiplyBothSides(0, d, avg as int);
        Distribute(d, avg as int, 1);
        if same {
          return avg;
        }
        var greater := R.Greater(prod);
        if greater {
          min := avg;
        } else {
          max := avg - 1;
        }
      }
      return min;
    }

    /** Conversion from a machine integer; the least one is handled by adding and subtracting 1. */
    constructor FromInt(n: int32)
      ensures Valid() && ToInt() == n as int
    {
      pos, val := n >= 0, [];
      new;
      var l := n;
      var subtractOne := false;
      if l == -0x8000_0000 {
        subtractOne := true;
        l := l + 1;
      }
      if !pos {
        l := -l;
      }
      ghost var m := l as int;
      while true
        invariant 0 <= l && pos == (n >= 0) && Digits(val)
        invariant Value(val) + Power(|val|) * l as int == m
        invariant val != [] ==> 0 < l
        decreases l
      {
        ghost var low, p, before := val, Power(|val|), l as int;
        ValueSnoc(val, (l as int % BASE) as int32);
        Distribute(p, before % BASE, BASE * (before / BASE));
        Associate(p, BASE, before / BASE);
        val := val + [(l as int % BASE) as int32];
        l := (l as int / BASE) as int32;
        if !(l > 0) { break; }
      }
      CanonicalZero(val);
      if subtractOne {
        Decrement();
      }
    }

    /** The absolute value: the object copied, or copied with its sign flipped. */
    method Magnitude() returns (m: InfInt)
      requires Valid()
      ensures fresh(m) && m.Valid() && m.pos && m.val == val && m.ToInt() == Abs(ToInt())
    {
      ValueBound(val);
      if pos {
        m := new InfInt.Copy(this);
      } else {
        m := Negated();
      }
    }

    /** Insert a limb in front, at the lowest position. */
    method BringDown(limb: int32)
      requires Digits(val) && 0 <= limb as int < BASE
      modifies this
      ensures pos == old(pos) && Canonical(val) && Value(val) == limb as int + BASE * Value(old(val))
    {
      val := [0] + val;
      val := val[0 := limb];
      assert val[1..] == old(val);
      Correct(true);
    }

    /** Bring down the next limb of the dividend and take D off as often as it goes: if the limbs above denote
        high == q * d + r, the limbs from here on denote limb + BASE * high == (cnt + BASE * q) * d + rest. */
    static method DivisionStep(R: InfInt, D: InfInt, limb: int32, ghost high: int, ghost q: int)
      returns (cnt: int32, ghost rest: int)
      requires R != D && D.Valid() && 0 < D.ToInt() && Digits(R.val) && 0 <= limb as int < BASE
      requires R.pos ==> Value(R.val) < D.ToInt() && high == q * D.ToInt() + Value(R.val)
      requires !R.pos ==> Value(R.val) == high && limb as int + BASE * high != 0
      modifies R
      ensures R.Valid() && 0 <= cnt as int < BASE && R.ToInt() == rest && R.pos == old(R.pos)
      ensures old(R.pos) ==> 0 <= rest < old(D.ToInt())
      ensures old(R.pos) ==> limb as int + BASE * high == (cnt as int + BASE * q) * old(D.ToInt()) + rest
      ensures !old(R.pos) ==> rest == -(limb as int + BASE * high)
    {
      ghost var d, r := D.ToInt(), Value(R.val);
      R.BringDown(limb);
      ValueBound(R.val);
      ghost var t := R.ToInt();
      assert R.Valid() && D.Valid() && D.ToInt() == d && t < d * BASE;
      cnt := DInR(R, D);
      var prod := D.TimesDigit(cnt);
      assert prod.ToInt() == d * cnt as int;
      ghost var p := d * cnt as int;
      assert t < 0 ==> p == 0;
      assert 0 <= t ==> p <= t < p + d by { Distribute(d, cnt as int, 1); }
      R.SubtractAssign(prod);
      rest := t - p;
      assert R.ToInt() == rest;
      ValueBound(R.val);
      if 0 <= t {
        DivisionAlgebra(high, q, d, r, limb as int, cnt as int, rest);
      }
    }

    method IsZero() returns (b: bool)
      requires Valid()
      ensures b <==> ToInt() == 0
    {
      var zero := new InfInt.FromInt(0);
      b := Equal(zero);
    }

    /** The loop shared by `/`, `/=` and `%`: one quotient limb per limb of the dividend, from the top down. */
    static method LongDivision(N: InfInt, D: InfInt) returns (Q: Numeral, R: InfInt, ghost q: int)
      requires N.Valid() && D.Valid() && 0 < D.ToInt()
      ensures fresh(R) && R.Valid() && R.pos && 0 <= R.ToInt() < D.ToInt()
      ensures Correctable(Q) && Digits(Q) && Value(Q) == q && Value(N.val) == q * D.ToInt() + R.ToInt()
    {
      R := new InfInt();
      ghost var d, high, r := D.ToInt(), 0, 0;
      q := 0;
      Q := seq(|N.val|, _ => 0);
      for i := |N.val| downto 0
        invariant |Q| == |N.val| && Digits(Q) && forall k :: 0 <= k < i ==> Q[k] == 0
        invariant R.Valid() && R.pos && R.ToInt() == r && 0 <= r < d
        invariant Value(N.val[i..]) == high && Value(Q[i..]) == q && high == q * d + r
      {
        ghost var higher := Q[i + 1..];
        assert N.val[i..][1..] == N.val[i + 1..];
        var cnt, rest := DivisionStep(R, D, N.val[i], high, q);
        Q := Q[i := Q[i] + cnt];
        assert Q[i..][1..] == higher;
        high, q, r := N.val[i] as int + BASE * high, cnt as int + BASE * q, rest;
      }
      assert N.val[0..] == N.val && Q[0..] == Q;
      assert q * D.ToInt() == q * d;
    }

    /** Truncating division; dividing by zero reports an error and yields 0. */
    method DivideBy(rhs: InfInt) returns (Q: InfInt)
      requires Valid() && rhs.Valid()
      ensures fresh(Q) && Q.Valid()
      ensures Q.ToInt() == if rhs.ToInt() == 0 then 0 else Quot(ToInt(), rhs.ToInt())
    {
      var divisorIsZero := rhs.IsZero();
      if divisorIsZero {
        Q := new InfInt.FromInt(0);
        return;
      }
      var D := rhs.Magnitude();
      var N := Magnitude();
      ghost var x, y, d := ToInt(), rhs.ToInt(), D.ToInt();
      Q := new InfInt();
      var R;
      ghost var q;
      Q.val, R, q := LongDivision(N, D);
      ValueBound(Q.val);
      Q.Correct();
      Q.SetSign(pos == rhs.pos);
      SignedQuotRem(pos, Value(val), rhs.pos, d, q, R.ToInt());
    }

    /** The remainder of truncating division; dividing by zero reports an error and yields 0. */
    method Modulo(rhs: InfInt) returns (R: InfInt)
      requires Valid() && rhs.Valid()
      ensures fresh(R) && R.Valid()
      ensures R.ToInt() == if rhs.ToInt() == 0 then 0 else Rem(ToInt(), rhs.ToInt())
    {
      var divisorIsZero := rhs.IsZero();
      if divisorIsZero {
        R := new InfInt.FromInt(0);
        return;
      }
      var D := rhs.Magnitude();
      var N := Magnitude();
      ghost var d := D.ToInt();
      var Q;
      ghost var q;
      Q, R, q := LongDivision(N, D);
      SignedQuotRem(pos, Value(val), rhs.pos, d, q, R.ToInt());
      R.Correct();
      R.SetSign(pos);
    }

    /** In-place division. When the divisor is this very object, its sign has already been overwritten
        when it is read, so that a negative number divided by itself comes out as -1. */
    method DivideAssign(rhs: InfInt)
      requires Valid() && rhs.Valid()
      modifies this
      ensures Valid()
      ensures ToInt() == QuotientInPlace(old(ToInt()), old(rhs.ToInt()), rhs == this)
      ensures old(rhs.ToInt()) == 0 ==> ToInt() == old(ToInt())
      ensures rhs == this && old(ToInt()) < 0 ==> ToInt() == -1
    {
      var divisorIsZero := rhs.IsZero();
      if divisorIsZero {
        return;
      }
      var D := rhs.Magnitude();
      var N := Magnitude();
      var oldpos := pos;
      ghost var d, rhspos, x, y := D.ToInt(), rhs.pos, ToInt(), rhs.ToInt();
      var R;
      ghost var q;
      val, R, q := LongDivision(N, D);
      ghost var r := R.ToInt();
      ValueBound(val);
      Correct();
      SetSign(oldpos == rhs.pos);
      assert Quot(x, y) == Signed(oldpos == rhspos, q) by {
        SignedQuotRem(oldpos, Value(N.val), rhspos, d, q, r);
      }
      if rhs == this {
        DivideAssignExact(x, y, true);
      }
    }

    /** The loop of `%=`: this object, with the sign it has, doubles as the running remainder. */
    method RemainderInPlace(N: InfInt, D: InfInt) returns (ghost q: int)
      requires this != N && this != D && N.Valid() && D.Valid() && 0 < D.ToInt()
      requires !pos ==> Value(N.val) != 0
      modifies this
      ensures pos == old(pos) && Valid()
      ensures pos ==> 0 <= ToInt() < old(D.ToInt()) && old(Value(N.val)) == q * old(D.ToInt()) + ToInt()
      ensures !pos ==> ToInt() == -old(Value(N.val))
    {
      ghost var positive, d, n, high, r := pos, D.ToInt(), N.val, 0, 0;
      q := 0;
      val := [];
      for i := |N.val| downto 0
        invariant Digits(val) && Value(val) == r && pos == positive && (i < |n| ==> Valid())
        invariant Value(n[i..]) == high
        invariant positive ==> 0 <= r < d && high == q * d + r
        invariant !positive ==> r == high && (i < |n| ==> r != 0)
      {
        assert n[i..][1..] == n[i + 1..];
        if !positive && i == |n| - 1 {
          assert n[i + 1..] == [];
          CanonicalZero(n);
        }
        var cnt, rest := DivisionStep(this, D, N.val[i], high, q);
        high, q, r := n[i] as int + BASE * high, cnt as int + BASE * q, if positive then rest else -rest;
      }
      assert n[0..] == n;
      assert positive ==> Value(n) == q * d + r;
    }

    /** In-place remainder. Since the running remainder keeps the sign of the dividend, a negative
        dividend always looks smaller than the divisor and comes out unchanged. */
    method ModuloAssign(rhs: InfInt)
      requires Valid() && rhs.Valid()
      modifies this
      ensures Valid()
      ensures ToInt() == ModuloInPlace(old(ToInt()), old(rhs.ToInt()))
      ensures old(rhs.ToInt()) == 0 || old(ToInt()) < 0 ==> ToInt() == old(ToInt())
    {
      var divisorIsZero := rhs.IsZero();
      if divisorIsZero {
        return;
      }
      var D := rhs.Magnitude();
      var N := Magnitude();
      var oldpos := pos;
      ghost var d, rhspos, x := D.ToInt(), rhs.pos, ToInt();
      ValueBound(val);
      ghost var q := RemainderInPlace(N, D);
      ghost var r := ToInt();
      ValueBound(val);
      Correct();
      SetSign(oldpos);
      if oldpos {
        SignedQuotRem(true, x, rhspos, d, q, r);
      }
    }

    /** Read chunks of nine characters from the right until fewer are left. */
    static method ReadWholeChunks(s: string) returns (v: Numeral, i: int)
      ensures -DIGIT_COUNT <= i < 0 && LeftToRead(s, v, i + DIGIT_COUNT)
    {
      v, i := [], |s| - DIGIT_COUNT;
      AllLeft(s);
      while i >= 0
        invariant -DIGIT_COUNT <= i && LeftToRead(s, v, i + DIGIT_COUNT)
      {
        OneMoreChunk(s, v, i + DIGIT_COUNT);
        v := v + [Chunk(s[i..i + DIGIT_COUNT])];
        i := i - DIGIT_COUNT;
      }
    }

    /** Read what is left as well; a lone minus sign is reported apart. */
    static method ReadChunks(s: string) returns (v: Numeral, minus: bool)
      requires s != "" && s != "-"
      ensures v == ReadLimbs(s) && (minus <==> LoneMinus(s))
    {
      var i;
      v, i := ReadWholeChunks(s);
      minus := false;
      LoneMinusLeft(s, v, i + DIGIT_COUNT);
      if i > -DIGIT_COUNT {
        var ss := s[..i + DIGIT_COUNT];
        if |ss| == 1 && ss[0] == '-' {
          minus := true;
        } else {
          v := v + [Chunk(ss)];
        }
      }
    }

    /** The limbs of a text and the sign it is given. */
    static method ParseLimbs(s: string) returns (v: Numeral, positive: bool)
      requires s != "" && s != "-"
      ensures v == TopUnsigned(ReadLimbs(s)) && v != []
      ensures positive <==> !LoneMinus(s) && 0 <= ReadLimbs(s)[|ReadLimbs(s)| - 1]
    {
      var minus;
      v, minus := ReadChunks(s);
      positive := !minus;
      if v[|v| - 1] < 0 {
        v := v[..|v| - 1] + [-v[|v| - 1]];
        positive := false;
      }
    }

    /** Parse a text. Digits denote their value; a sign is lost when it shares its chunk with zeros only
        and other digits follow, and a sign that fills a chunk alone turns 0 into an invalid number. Any other text
        gives the limbs its chunks are read as, which are those of a number just when only the topmost is negative. */
    constructor FromString(s: string)
      requires s != "" && s != "-"
      ensures var v := ReadLimbs(s);
              && pos == (!LoneMinus(s) && 0 <= v[|v| - 1]) && Value(val) == Value(TopUnsigned(v))
              && (Valid() <==> Digits(v[..|v| - 1]) && (Value(val) == 0 ==> pos))
      ensures IsNumeral(s) && s[0] != '-' ==> Valid() && ToInt() == Meaning(s)
      ensures IsNumeral(s) && s[0] == '-' ==>
                ToInt() == (if SignIsSeen(s) then Meaning(s) else -Meaning(s))
                && (Valid() <==> !SignIsSeen(s) || Meaning(s) != 0)
    {
      pos, val := true, [];
      new;
      val, pos := ParseLimbs(s);
      ghost var w := val;
      Correct(true);
      SameDigits(val, w, ReadLimbs(s));
      if IsNumeral(s) {
        NumeralLimbs(s);
      }
    }

    /** Print the topmost limb plainly and every other limb padded to nine digits. */
    static method PrintLimbs(v: Numeral) returns (s: string)
      requires Canonical(v)
      ensures 0 <= Value(v) && s == Decimal(Value(v))
    {
      var first := true;
      s := "";
      ghost var high := 0;
      for i := |v| downto 0
        invariant (first <==> i == |v|) && Value(v[i..]) == high && 0 <= high
        invariant if first then s == "" else s == Decimal(high)
        invariant 0 < i < |v| ==> 0 < high
      {
        assert v[i..][1..] == v[i + 1..];
        if first {
          s := s + Decimal(v[i] as int);
          first := false;
        } else {
          LimbText(v[i] as int, high);
          s := s + PadLeft(Decimal(v[i] as int), DIGIT_COUNT);
        }
        high := v[i] as int + BASE * high;
      }
      assert v[0..] == v;
    }

    method ToText() returns (s: string)
      requires Valid()
      ensures s == Text(ToInt())
    {
      var digits := PrintLimbs(val);
      s := if !pos then "-" + digits else digits;
    }

    method NumberOfDigits() returns (n: nat)
      requires Valid()
      ensures n == |Decimal(Abs(ToInt()))|
    {
      var back := val[|val| - 1];
      var k :=
        if back > 99_999_999 then 9 else if back > 9_999_999 then 8 else if back > 999_999 then 7
        else if back > 99_999 then 6 else if back > 9_999 then 5 else if back > 999 then 4
        else if back > 99 then 3 else if back > 9 then 2 else 1;
      n := (|val| - 1) * DIGIT_COUNT + k;
      ValueBound(val);
      TopLimbBounds(val);
      if back == 0 {
        CanonicalZero(val);
      } else {
        LimbDigits(back as int, k);
        DigitsOfTop(Value(val), back as int, |val| - 1, k);
      }
    }

    /** A power of ten with about half the digits of this number. */
    method HalfDigitsPower() returns (hdn: InfInt)
      requires Valid()
      ensures fresh(hdn) && hdn.Valid() && hdn.ToInt() == Ten(HalfDigits(|Decimal(Abs(ToInt()))|))
    {
      hdn := new InfInt.FromInt(1);
      var n := NumberOfDigits();
      var i := n / 2;
      ghost var e := 0;
      while i >= 2
        invariant hdn.Valid() && hdn.ToInt() == Ten(e)
        invariant if n / 2 >= 2 then e + i == n / 2 && 1 <= i else e == 0 && i == n / 2
      {
        hdn.MultiplyDigitAssign(10);
        e := e + 1;
        i := i - 1;
      }
    }

    /** Narrow the search for the root by the number of digits. */
    method OptimizeSqrtSearchBounds(lo: InfInt, hi: InfInt) returns (newLo: InfInt, newHi: InfInt)
      requires Valid() && lo.Valid() && hi.Valid()
      ensures newLo.Valid() && newHi.Valid()
      ensures var p := Ten(HalfDigits(|Decimal(Abs(ToInt()))|));
              newLo.ToInt() == (if lo.ToInt() < p then p else lo.ToInt())
              && newHi.ToInt() == (if hi.ToInt() > 100 * p then 100 * p else hi.ToInt())
    {
      newLo, newHi := lo, hi;
      var hdn := HalfDigitsPower();
      var below := newLo.Less(hdn);
      if below {
        newLo := new InfInt.Copy(hdn);
      }
      hdn.MultiplyDigitAssign(100);
      var above := newHi.Greater(hdn);
      if above {
        newHi := hdn;
      }
    }

    /** Division by 2, as in `*this / 2` and `(hi + lo) / 2`. */
    method Half() returns (half: InfInt)
      requires Valid() && 0 <= ToInt()
      ensures fresh(half) && half.Valid() && half.ToInt() == ToInt() / 2
    {
      var two := new InfInt.FromInt(2);
      half := DivideBy(two);
    }

    /** One halving step of the search: the middle of the bounds and its square. */
    static method Middle(lo: InfInt, hi: InfInt) returns (mid: InfInt, mid2: InfInt)
      requires lo.Valid() && hi.Valid() && 0 <= lo.ToInt() && 0 <= hi.ToInt()
      ensures mid.Valid() && mid2.Valid()
      ensures mid.ToInt() == (hi.ToInt() + lo.ToInt()) / 2 && mid2.ToInt() == mid.ToInt() * mid.ToInt()
    {
      var sum := hi.Plus(lo);
      mid := sum.Half();
      mid2 := mid.Times(mid);
    }

    /** hi - 1, against which the search compares its lower bound. */
    static method Narrow(lo: InfInt, hi: InfInt) returns (b: bool)
      requires lo.Valid() && hi.Valid()
      ensures b <==> lo.ToInt() >= hi.ToInt() - 1
    {
      var one := new InfInt.FromInt(1);
      var below := hi.Minus(one);
      var less := lo.Less(below);
      b := !less;
    }

    /** The bounds the search starts from. */
    method SqrtStart() returns (lo: InfInt, hi: InfInt)
      requires Valid() && 1 <= ToInt()
      ensures lo.Valid() && hi.Valid() && BracketsRoot(ToInt(), lo.ToInt(), hi.ToInt())
    {
      var one := new InfInt.FromInt(1);
      var half := Half();
      ghost var n := ToInt();
      assert half.ToInt() == n / 2;
      hi := half.Plus(one);
      lo := new InfInt.FromInt(0);
      assert hi.ToInt() == n / 2 + 1 && lo.ToInt() == 0;
      lo, hi := OptimizeSqrtSearchBounds(lo, hi);
      SqrtStartBounds(n);
    }

    /** The integer square root, by halving; numbers below 1 report an error and yield 0. */
    method IntSqrt() returns (root: InfInt)
      requires Valid()
      ensures root.Valid()
      ensures ToInt() <= 0 ==> root.ToInt() == 0
      ensures 0 < ToInt() ==> IsRoot(ToInt(), root.ToInt())
    {
      var zero := new InfInt.FromInt(0);
      var nonPositive := LessEqual(zero);
      if nonPositive {
        return zero;
      }
      ghost var n := ToInt();
      var lo, hi := SqrtStart();
      while true
        invariant lo.Valid() && hi.Valid() && BracketsRoot(n, lo.ToInt(), hi.ToInt())
        decreases hi.ToInt() - lo.ToInt()
      {
        ghost var l, h := lo.ToInt(), hi.ToInt();
        BracketOrder(n, l, h);
        var mid, mid2 := Middle(lo, hi);
        ghost var m := mid.ToInt();
        var found := mid2.Equal(this);
        if found {
          RootFound(m);
          return mid;
        }
        var below := mid2.Less(this);
        if below { lo := mid; } else { hi := mid; }
        BracketStep(n, l, h, m);
        var done := Narrow(lo, hi);
        if done {
          NarrowBracket(n, lo.ToInt(), hi.ToInt());
          return lo;
        }
      }
    }
  }
}
