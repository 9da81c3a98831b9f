/** The base-64 numerals of the index file: big-endian, without padding, over 64-bit words. */
module Base64 {

  const WORD: int := 0x1_0000_0000_0000_0000
  /** The string b64_chars, cut into eight rows. */
  const B64_CHARS: seq<string> :=
    ["ABCDEFGH", "IJKLMNOP", "QRSTUVWX", "YZabcdef", "ghijklmn", "opqrstuv", "wxyz0123", "456789+/"]

  /** The entry the index table holds for characters outside the alphabet. */
  const XX: int := 100

  datatype Result = Ok(value: int) | Err(error: Error)
  datatype Error = IllegalCharacter(c: char) | TooLarge | ShiftTooFar

  /** The table b64_index, whose runs of consecutive entries are given as ranges. */
  function Index(c: char): (k: int)
    ensures 0 <= k < 64 || k == XX
  {
    if 'A' <= c <= 'Z' then (c - 'A') as int
    else if 'a' <= c <= 'z' then (c - 'a') as int + 26
    else if '0' <= c <= '9' then (c - '0') as int + 52
    else if c == '+' then 62
    else if c == '/' then 63
    else XX
  }

  predicate InAlphabet(s: string) {
    forall i :: 0 <= i < |s| ==> Index(s[i]) != XX
  }

  /** The number a numeral denotes by the positions of its characters. */
  function Positional(s: string): (n: int)
    requires InAlphabet(s)
    ensures 0 <= n
  {
    if s == "" then 0 else 64 * Positional(s[..|s| - 1]) + Index(s[|s| - 1])
  }

  /** The base-64 numeral of v without leading zeros. */
  function Numeral64(v: nat): (s: string)
    ensures 1 <= |s|
  {
    if v < 64 then [Char(v)] else Numeral64(v / 64) + [Char(v % 64)]
  }

  /** x doubled k times. */
  function Doubled(x: nat, k: nat): nat {
    if k == 0 then x else 2 * Doubled(x, k - 1)
  }

  /** x halved k times. */
  function Halved(x: nat, k: nat): nat {
    if k == 0 then x else Halved(x / 2, k - 1)
  }

  /** `x << k` on 64-bit words: the bits pushed out at the top are lost. */
  function ShiftLeft(x: nat, k: nat): nat
    requires k < 64
  {
    Doubled(x, k) % WORD
  }

  /** `x >> k`. */
  function ShiftRight(x: nat, k: nat): nat
    requires k < 64
  {
    Halved(x, k)
  }

  /** `x & y`. */
  function BitAnd(x: nat, y: nat): (z: nat)
    ensures z <= x && z <= y
  {
    if x == 0 || y == 0 then 0
    else 2 * BitAnd(x / 2, y / 2) + if x % 2 == 1 && y % 2 == 1 then 1 else 0
  }

  /** `x | y`. */
  function BitOr(x: nat, y: nat): nat {
    if x == 0 then y
    else if y == 0 then x
    else 2 * BitOr(x / 2, y / 2) + if x % 2 == 1 || y % 2 == 1 then 1 else 0
  }

  /** b64_chars[k], by the runs of consecutive characters in it. */
  function Char(k: int): char
    requires 0 <= k < 64
  {
    if k < 26 then 'A' + k as char
    else if k < 52 then 'a' + (k - 26) as char
    else if k < 62 then '0' + (k - 52) as char
    else if k == 62 then '+' else '/'
  }

  lemma CharIsTableEntry(k: int)
    requires 0 <= k < 64
    ensures Char(k) == B64_CHARS[k / 8][k % 8]
  {
    var row, column := k / 8, k % 8;
    assert row == 0 || row == 1 || row == 2 || row == 3 || row == 4 || row == 5 || row == 6 || row == 7;
  }

  /** Both tables list the same alphabet. */
  lemma AlphabetRoundTrip(k: int)
    requires 0 <= k < 64
    ensures Index(Char(k)) == k
  {
  }

  /** A character has an index just when it is in the alphabet. */
  lemma AlphabetComplete(c: char)
    ensures Index(c) != XX <==> exists k :: 0 <= k < 64 && Char(k) == c
    ensures Index(c) != XX ==> 0 <= Index(c) < 64 && Char(Index(c)) == c
  {
    if Index(c) != XX {
      assert Char(Index(c)) == c;
    }
    forall k | 0 <= k < 64 && Char(k) == c ensures Index(c) != XX {
      AlphabetRoundTrip(k);
    }
  }

  lemma {:induction false} DoubledAdd(x: nat, a: nat, b: nat)
    ensures Doubled(x, a + b) == Doubled(Doubled(x, a), b)
  {
    if b == 0 {
    } else {
      DoubledAdd(x, a, b - 1);
    }
  }

  lemma {:induction false} HalvedAdd(x: nat, a: nat, b: nat)
    ensures Halved(x, a + b) == Halved(Halved(x, a), b)
  {
    if a == 0 {
    } else {
      HalvedAdd(x / 2, a - 1, b);
    }
  }

  lemma DoubledSix(x: nat, k: nat)
    ensures Doubled(x, k + 6) == 64 * Doubled(x, k)
  {
    assert Doubled(x, k + 2) == 2 * Doubled(x, k + 1) == 4 * Doubled(x, k);
    assert Doubled(x, k + 4) == 2 * Doubled(x, k + 3) == 4 * Doubled(x, k + 2);
    assert Doubled(x, k + 6) == 2 * Doubled(x, k + 5) == 4 * Doubled(x, k + 4);
  }

  lemma HalvedSix(x: nat, k: nat)
    ensures Halved(x, k + 6) == Halved(x, k) / 64
  {
    HalvedAdd(x, k, 6);
    var y := Halved(x, k);
    assert Halved(y, 6) == Halved(y / 2, 5) == Halved(y / 2 / 2, 4) == Halved(y / 4, 4);
    assert Halved(y / 4, 4) == Halved(y / 4 / 2, 3) == Halved(y / 4 / 2 / 2, 2) == Halved(y / 16, 2);
    assert Halved(y / 16, 2) == Halved(y / 16 / 2, 1) == y / 16 / 2 / 2;
  }

  lemma {:induction false} DoubledMonotone(x: nat, y: nat, k: nat)
    requires x < y
    ensures Doubled(x, k) + Doubled(1, k) <= Doubled(y, k)
  {
    if k == 0 {
    } else {
      DoubledMonotone(x, y, k - 1);
    }
  }

  lemma {:induction false} HalvedDoubled(x: nat, k: nat)
    ensures Halved(Doubled(x, k), k) == x
  {
    if k == 0 {
    } else {
      HalvedDoubled(x, k - 1);
    }
  }

  /** A number has no bits left after k halvings just when it is below 2^k. */
  lemma {:induction false} HalvedToZero(v: nat, k: nat)
    ensures Halved(v, k) == 0 <==> v < Doubled(1, k)
  {
    if k == 0 {
    } else {
      HalvedToZero(v / 2, k - 1);
    }
  }

  lemma PowersOfTwo()
    ensures Doubled(1, 60) == 0x1000_0000_0000_0000 && Doubled(1, 64) == WORD
  {
    DoubledSix(1, 0);
    DoubledSix(1, 6);
    DoubledSix(1, 12);
    DoubledSix(1, 18);
    DoubledSix(1, 24);
    DoubledSix(1, 30);
    DoubledSix(1, 36);
    DoubledSix(1, 42);
    DoubledSix(1, 48);
    DoubledSix(1, 54);
    assert Doubled(1, 62) == 4 * Doubled(1, 60);
    assert Doubled(1, 64) == 4 * Doubled(1, 62);
  }

  lemma {:induction false} PositionalBound(s: string)
    requires InAlphabet(s)
    ensures Positional(s) < Doubled(1, 6 * |s|)
  {
    if s == "" {
    } else {
      PositionalBound(s[..|s| - 1]);
      DoubledSix(1, 6 * (|s| - 1));
    }
  }

  /** A further character on the left counts with the weight of its place. */
  lemma {:induction false} PositionalCons(c: char, s: string)
    requires Index(c) != XX && InAlphabet(s)
    ensures InAlphabet([c] + s) && Positional([c] + s) == Doubled(Index(c), 6 * |s|) + Positional(s)
  {
    if s == "" {
      assert ([c] + s)[..0] == "" && ([c] + s)[0] == c;
    } else {
      var t := s[..|s| - 1];
      PositionalCons(c, t);
      assert ([c] + s)[..|s|] == [c] + t && ([c] + s)[|s|] == s[|s| - 1];
      DoubledSix(Index(c), 6 * |t|);
    }
  }

  /** Shifting both operands of `&` by k places. */
  lemma {:induction false} AndShifted(v: nat, m: nat, k: nat)
    ensures BitAnd(v, Doubled(m, k)) == Doubled(BitAnd(Halved(v, k), m), k)
  {
    if k == 0 {
    } else {
      AndDouble(v, Doubled(m, k - 1));
      AndShifted(v / 2, m, k - 1);
    }
  }

  lemma AndDouble(v: nat, m: nat)
    ensures BitAnd(v, 2 * m) == 2 * BitAnd(v / 2, m)
  {
    assert 2 * m / 2 == m && 2 * m % 2 == 0;
  }

  lemma AndOdd(v: nat, m: nat)
    ensures BitAnd(v, 2 * m + 1) == 2 * BitAnd(v / 2, m) + v % 2
  {
  }

  function Ones(k: nat): nat {
    if k == 0 then 0 else 2 * Ones(k - 1) + 1
  }

  /** A number is made of its lowest k bits and of the bits above them. */
  lemma {:induction false} LowBits(v: nat, k: nat)
    ensures BitAnd(v, Ones(k)) + Doubled(Halved(v, k), k) == v
  {
    if k == 0 {
    } else {
      LowBits(v / 2, k - 1);
      AndOdd(v, Ones(k - 1));
    }
  }

  lemma AndSixtyThree(v: nat)
    ensures BitAnd(v, 63) == v % 64
  {
    LowBits(v, 6);
    DoubledSix(Halved(v, 6), 0);
    HalvedSix(v, 0);
    assert Ones(3) == 7 && Ones(6) == 63;
  }

  lemma AndFifteen(v: nat)
    requires Halved(v, 4) == 0
    ensures BitAnd(v, 15) == v && v < 16
  {
    LowBits(v, 4);
    assert Ones(2) == 3 && Ones(4) == 15;
    assert Doubled(0, 4) == 2 * Doubled(0, 3) == 4 * Doubled(0, 2) == 0;
  }

  /** Bits or-ed in above all bits present are added. */
  lemma {:induction false} OrAbove(x: nat, y: nat, k: nat)
    requires x < Doubled(1, k)
    ensures BitOr(x, Doubled(y, k)) == x + Doubled(y, k)
  {
    if k == 0 {
    } else {
      OrAbove(x / 2, y, k - 1);
      OrDouble(x, Doubled(y, k - 1));
    }
  }

  lemma OrDouble(x: nat, m: nat)
    ensures BitOr(x, 2 * m) == 2 * BitOr(x / 2, m) + x % 2
  {
  }

  /** The six bits of v at place i, as the mask and the shifts pick them out, even where the mask is cut off. */
  lemma SixBits(v: nat, i: nat)
    requires v < WORD && i <= 10
    ensures ShiftRight(BitAnd(v, ShiftLeft(63, 6 * i)), 6 * i) == Halved(v, 6 * i) % 64
  {
    var w, m := Halved(v, 6 * i), if i == 10 then 15 else 63;
    assert BitAnd(w, m) == w % 64 by {
      if i == 10 {
        PowersOfTwo();
        HalvedToZero(v, 64);
        HalvedAdd(v, 60, 4);
        AndFifteen(w);
      } else {
        AndSixtyThree(w);
      }
    }
    MaskFits(i);
    AndShifted(v, m, 6 * i);
    HalvedDoubled(BitAnd(w, m), 6 * i);
  }

  lemma MaskFits(i: nat)
    requires i <= 10
    ensures Doubled(63, 6 * i) % WORD == Doubled(if i == 10 then 15 else 63, 6 * i)
  {
    PowersOfTwo();
    if i < 10 {
      DoubledMonotone(63, 64, 6 * i);
      DoubledAdd(1, 6, 6 * i);
      DoubledSix(1, 0);
      DoublingGrows(6 * i + 6, 60);
    } else {
      DoubledScale(63, 60);
      DoubledScale(15, 60);
    }
  }

  lemma {:induction false} DoublingGrows(a: nat, b: nat)
    requires a <= b
    ensures Doubled(1, a) <= Doubled(1, b)
  {
    if a == b {
    } else {
      DoublingGrows(a, b - 1);
    }
  }

  lemma {:induction false} DoubledScale(x: nat, k: nat)
    ensures Doubled(x, k) == x * Doubled(1, k)
  {
    if k == 0 {
    } else {
      DoubledScale(x, k - 1);
      var p := Doubled(1, k - 1);
      assert 2 * (x * p) == x * (2 * p);
    }
  }

  /** The character for the six bits at place i. */
  method EncodeChunk(v: nat, i: nat) returns (c: char)
    requires v < WORD && i <= 10
    ensures Index(c) == Halved(v, 6 * i) % 64
  {
    var shift := i * 6;
    var mask := ShiftLeft(0x3f, shift);
    SixBits(v, i);
    c := Char(ShiftRight(BitAnd(v, mask), shift));
    AlphabetRoundTrip(Halved(v, shift) % 64);
  }

  /** `b64_encode`: the numeral of v, of the smallest length there is. */
  method Encode(v: nat) returns (result: string)
    requires v < WORD
    ensures InAlphabet(result) && Positional(result) == v
    ensures 1 <= |result| <= 11 && (|result| == 1 || Doubled(1, 6 * (|result| - 1)) <= v)
    ensures result == Numeral64(v)
  {
    var chunks := CountChunks(v);
    result := seq(chunks, _ => 0 as char);
    ghost var n: nat := chunks;
    for i := 0 to chunks
      invariant |result| == n
      invariant forall k :: n - i <= k < n ==> Index(result[k]) == Halved(v, 6 * (n - 1 - k)) % 64
    {
      var c := EncodeChunk(v, i);
      result := result[chunks - i - 1 := c];
    }
    DigitsDenote(v, result, n);
    assert result[..n] == result;
    ShortestIsNumeral(result);
  }

  /** The loop that counts the six-bit chunks of a value; 0 has one chunk. */
  method CountChunks(v: nat) returns (chunks: nat)
    requires v < WORD
    ensures 1 <= chunks <= 11 && Halved(v, 6 * chunks) == 0
    ensures chunks == 1 || Doubled(1, 6 * (chunks - 1)) <= v
  {
    chunks := 1;
    PowersOfTwo();
    HalvedToZero(v, 64);
    if v != 0 {
      var val2 := ShiftRight(v, 6);
      while val2 != 0
        invariant 1 <= chunks <= 11 && val2 == Halved(v, 6 * chunks)
        invariant chunks == 1 || Halved(v, 6 * (chunks - 1)) != 0
        decreases val2
      {
        if chunks == 11 {
          HalvedStaysZero(v, 64, 66);
          assert false;
        }
        HalvedSix(v, 6 * chunks);
        HalvedSix(val2, 0);
        chunks := chunks + 1;
        val2 := ShiftRight(val2, 6);
      }
      HalvedToZero(v, 6 * (chunks - 1));
    }
  }

  lemma HalvedStaysZero(v: nat, a: nat, b: nat)
    requires Halved(v, a) == 0 && a <= b
    ensures Halved(v, b) == 0
  {
    HalvedToZero(v, a);
    DoublingGrows(a, b);
    HalvedToZero(v, b);
  }

  /** The first k characters of such a numeral denote what is left of v above the others. */
  lemma {:induction false} DigitsDenote(v: nat, s: string, k: nat)
    requires k <= |s| && Halved(v, 6 * |s|) == 0
    requires forall j :: 0 <= j < |s| ==> Index(s[j]) == Halved(v, 6 * (|s| - 1 - j)) % 64
    ensures InAlphabet(s[..k]) && Positional(s[..k]) == Halved(v, 6 * (|s| - k))
  {
    if k == 0 {
    } else {
      DigitsDenote(v, s, k - 1);
      assert s[..k][..k - 1] == s[..k - 1] && s[..k][k - 1] == s[k - 1];
      HalvedSix(v, 6 * (|s| - k));
      assert 6 * (|s| - k) + 6 == 6 * (|s| - (k - 1));
    }
  }

  /** A character shifted to its place survives the shift unless it is the eleventh and has more than four bits. */
  lemma ShiftKeeps(x: nat, i: nat)
    requires x < 64 && i <= 10
    ensures ShiftRight(ShiftLeft(x, 6 * i), 6 * i) == x <==> Doubled(x, 6 * i) < WORD
    ensures i < 10 ==> Doubled(x, 6 * i) < WORD
  {
    var k := 6 * i;
    if i < 10 {
      BelowWord(x, k);
    }
    if Doubled(x, k) < WORD {
      ShiftFits(x, k);
    } else {
      TopBitsLost(ShiftLeft(x, k), x, k);
    }
  }

  lemma BelowWord(x: nat, k: nat)
    requires x < 64 && k <= 54
    ensures Doubled(x, k) < WORD
  {
    DoubledMonotone(x, 64, k);
    assert Doubled(64, k) == Doubled(1, k + 6) by {
      DoubledAdd(1, 6, k);
      DoubledSix(1, 0);
    }
    DoublingGrows(k + 6, 60);
    PowersOfTwo();
  }

  lemma ShiftFits(x: nat, k: nat)
    requires k < 64 && Doubled(x, k) < WORD
    ensures ShiftRight(ShiftLeft(x, k), k) == x
  {
    HalvedDoubled(x, k);
    assert ShiftLeft(x, k) == Doubled(x, k);
  }

  /** Below 2^64 at most 2^4 - 1 units of 2^60 are left. */
  lemma TopBitsLost(y: nat, x: nat, k: nat)
    requires y < WORD && k == 60 && WORD <= Doubled(x, 60)
    ensures Halved(y, k) != x
  {
    PowersOfTwo();
    if Halved(y, 60) == x {
      LowBits(y, 60);
      assert false;
    }
  }

  lemma RoomAbove(x: nat, i: nat)
    requires x < 64 && i <= 10 && Doubled(x, 6 * i) < WORD
    ensures Doubled(x, 6 * i) + Doubled(1, 6 * i) <= WORD
  {
    PowersOfTwo();
    if i < 10 {
      DoubledMonotone(x, 64, 6 * i);
      DoubledAdd(1, 6, 6 * i);
      DoubledSix(1, 0);
      DoublingGrows(6 * i + 6, 60);
    } else {
      DoubledScale(x, 60);
    }
  }

  /** Check that a character fits its place and or it in. */
  method DecodeChunk(tmp: nat, i: nat, result: nat) returns (fits: bool, next: nat)
    requires tmp < 64 && i <= 10 && result < Doubled(1, 6 * i)
    ensures fits <==> result + Doubled(tmp, 6 * i) < WORD
    ensures fits ==> next == result + Doubled(tmp, 6 * i)
    ensures !fits ==> i == 10
  {
    var offset := i * 6;
    next := result;
    ShiftKeeps(tmp, i);
    fits := ShiftRight(ShiftLeft(tmp, offset), offset) == tmp;
    if fits {
      RoomAbove(tmp, i);
      OrAbove(result, tmp, offset);
      next := BitOr(result, ShiftLeft(tmp, offset));
    }
  }

  /** The last 11 characters, or all of them. */
  function Tail(val: string): string {
    if |val| <= 11 then val else val[|val| - 11..]
  }

  /** `b64_decode`: read from the right, or-ing each character in at its place. What happens to a twelfth character
      of the alphabet is left undefined by C++, as it is shifted by more than the width of the word. */
  method Decode(val: string) returns (r: Result)
    ensures r.Ok? <==> |val| <= 11 && InAlphabet(val) && Positional(val) < WORD
    ensures r.Ok? ==> r.value == Positional(val)
    ensures r == Err(TooLarge) <==> InAlphabet(Tail(val)) && WORD <= Positional(Tail(val))
    ensures r == Err(ShiftTooFar) <==>
              11 < |val| && InAlphabet(Tail(val)) && Positional(Tail(val)) < WORD && Index(val[|val| - 12]) != XX
    ensures r.Err? && r.error.IllegalCharacter? ==>
              exists i :: 0 <= i < |val| && val[i] == r.error.c && Index(val[i]) == XX && InAlphabet(val[i + 1..])
  {
    var result: nat := 0;
    for i := |val| downto 0
      invariant |val| - i <= 11 && InAlphabet(val[i..]) && Positional(val[i..]) == result < WORD
    {
      var tmp := Index(val[i]);
      ghost var low := val[i + 1..];
      assert val[i..] == [val[i]] + low;
      if tmp == XX {
        NotInTail(val, i);
        return Err(IllegalCharacter(val[i]));
      }
      if |val| - 1 - i == 11 {
        return Err(ShiftTooFar);
      }
      PositionalCons(val[i], low);
      PositionalBound(low);
      var fits, next := DecodeChunk(tmp, |val| - 1 - i, result);
      if !fits {
        assert Tail(val) == val[i..];
        return Err(TooLarge);
      }
      result := next;
    }
    assert val[0..] == val;
    return Ok(result);
  }

  /** A character outside the alphabet that is among the last 11, or right before them. */
  lemma NotInTail(val: string, i: nat)
    requires i < |val| && |val| - i <= 12 && Index(val[i]) == XX
    ensures |val| - i <= 11 ==> !InAlphabet(Tail(val))
    ensures !InAlphabet(val)
  {
    if |val| - i <= 11 {
      assert Tail(val)[i - (|val| - |Tail(val)|)] == val[i];
    }
  }

  /** Reading a numeral back gives the number. */
  lemma {:induction false} NumeralRoundTrip(v: nat)
    ensures InAlphabet(Numeral64(v)) && Positional(Numeral64(v)) == v
  {
    AlphabetRoundTrip(v % 64);
    if 64 <= v {
      NumeralRoundTrip(v / 64);
      PositionalSnoc(Numeral64(v / 64), Char(v % 64));
    } else {
      PositionalSnoc("", Char(v));
      assert "" + [Char(v)] == [Char(v)];
    }
  }

  lemma PositionalSnoc(s: string, c: char)
    requires InAlphabet(s) && Index(c) != XX
    ensures InAlphabet(s + [c]) && Positional(s + [c]) == 64 * Positional(s) + Index(c)
  {
    assert (s + [c])[..|s|] == s && (s + [c])[|s|] == c;
  }

  /** Every other numeral of v is longer: a shortest numeral of v is Numeral64(v). */
  lemma {:induction false} ShortestIsNumeral(s: string)
    requires s != "" && InAlphabet(s)
    requires |s| == 1 || Doubled(1, 6 * (|s| - 1)) <= Positional(s)
    ensures s == Numeral64(Positional(s))
  {
    var t, c := s[..|s| - 1], s[|s| - 1];
    AlphabetComplete(c);
    assert s == t + [c];
    if t == "" {
      assert Positional(t) == 0;
    } else {
      var v, d := Positional(t), Index(c);
      assert |s| - 1 == |t| && Positional(s) == 64 * v + d;
      FirstIsPositive(t);
      ShorterIsShortest(t, d);
      ShortestIsNumeral(t);
      LastDigit(v, d);
    }
  }

  lemma LastDigit(v: nat, d: nat)
    requires 1 <= v && d < 64
    ensures Numeral64(64 * v + d) == Numeral64(v) + [Char(d)]
  {
    assert (64 * v + d) / 64 == v && (64 * v + d) % 64 == d;
  }

  /** Some numerals, the most significant character first. */
  lemma SomeNumerals()
    ensures Numeral64(0) == "A" && Numeral64(63) == "/" && Numeral64(64) == "BA" && Numeral64(0x10_83) == "BCD"
  {
    assert Char(0) == 'A' && Char(1) == 'B' && Char(2) == 'C' && Char(3) == 'D' && Char(63) == '/';
    assert Numeral64(1) == "B";
    LastDigit(1, 0);
    LastDigit(1, 2);
    LastDigit(0x42, 3);
  }

  lemma ShorterIsShortest(t: string, d: nat)
    requires t != "" && InAlphabet(t) && d < 64 && Doubled(1, 6 * |t|) <= 64 * Positional(t) + d
    ensures |t| == 1 || Doubled(1, 6 * (|t| - 1)) <= Positional(t)
  {
    DoubledSix(1, 6 * (|t| - 1));
  }

  lemma FirstIsPositive(t: string)
    requires t != "" && InAlphabet(t) && Doubled(1, 6 * |t|) <= 64 * Positional(t) + 63
    ensures 1 <= Positional(t)
  {
    DoubledSix(1, 6 * (|t| - 1));
    DoublingGrows(0, 6 * (|t| - 1));
  }

  lemma NumeralLength(v: nat)
    requires v < WORD
    ensures |Numeral64(v)| <= 11
  {
    NumeralLengthBound(v, 11);
    PowersOfTwo();
    DoublingGrows(64, 66);
  }

  lemma {:induction false} NumeralLengthBound(v: nat, n: nat)
    requires 1 <= n
    ensures v < Doubled(1, 6 * n) ==> |Numeral64(v)| <= n
  {
    if 64 <= v && v < Doubled(1, 6 * n) {
      DoubledSix(1, 6 * (n - 1));
      if n == 1 {
        assert false;
      }
      NumeralLengthBound(v / 64, n - 1);
    }
  }
}
