/** The tables of the macro automaton, their lookup by binary search, and the transition function of the grammar
    they were generated from. */
module MacroTables {

  const START: int := 16
  const FIRST_FINAL: int := 16
  const ERROR: int := 0

  datatype Action = StrChar | Key | QueryStart | QueryEnd | SubstBegin | SubstEnd

  predicate IsSpace(c: char) {
    c == '\n' || c == '\r' || c == '\t' || c == ' '
  }

  predicate IsKeyChar(c: char) {
    'A' <= c <= 'Z' || 'a' <= c <= 'z' || '0' <= c <= '9' || c == '_'
  }

  /** The grammar as an automaton: the state reached from a state by a character, and the actions on the way.
      States 1, 16 and 18 stand between definitions, 2 in a comment, 3 in a key, 4 before and 5 after the equals
      sign, 6 and 7 in the opening quotes, 8 at the start of a value, 9 to 11 in a value behind 0 to 2 quotes,
      12 to 15 in a name between percent signs, and 17, 19 and 20 behind 3 to 5 quotes that may close a value. */
  function Delta(cs: int, c: char): (int, seq<Action>) {
    if cs == 1 || cs == 16 || cs == 18 then
      if IsSpace(c) then (if cs == 18 then 18 else 1, []) else Begin(c, [], [StrChar])
    else if cs == 2 then (if c == '\n' then 1 else 2, [])
    else if cs == 3 then
      if IsKeyChar(c) then (3, [StrChar])
      else if IsSpace(c) then (4, [Key]) else if c == '=' then (5, [Key]) else (ERROR, [])
    else if cs == 4 then (if IsSpace(c) then 4 else if c == '=' then 5 else ERROR, [])
    else if cs == 5 then (if IsSpace(c) then 5 else if c == '"' then 6 else ERROR, [])
    else if cs == 6 || cs == 7 then (if c == '"' then cs + 1 else ERROR, [])
    else if 8 <= cs <= 11 then
      (if c == '"' then AfterQuote(cs) else if c == '%' then 12 else 9, if cs == 8 then [QueryStart] else [])
    else if cs == 12 then
      if c == '%' then (ERROR, []) else (if c == '"' then 14 else 13, [SubstBegin])
    else if 13 <= cs <= 15 then
      if c == '%' then (9, [SubstEnd]) else (if c != '"' then 13 else if cs == 15 then ERROR else cs + 1, [])
    else if cs == 17 || cs == 19 || cs == 20 then
      if c == '"' then (AfterQuote(cs), [])
      else if IsSpace(c) then (18, [QueryEnd]) else Begin(c, [QueryEnd], [QueryEnd, StrChar])
    else (ERROR, [])
  }

  /** A comment or a key begins. */
  function Begin(c: char, onComment: seq<Action>, onKey: seq<Action>): (int, seq<Action>) {
    if c == '#' then (2, onComment) else if IsKeyChar(c) then (3, onKey) else (ERROR, [])
  }

  /** One more quote within or behind a value. */
  function AfterQuote(cs: int): int {
    if cs == 8 || cs == 9 then 10 else if cs == 10 then 11 else if cs == 11 then 17
    else if cs == 17 then 19 else if cs == 19 then 20 else ERROR
  }

  /** The action at the end of the text. */
  function AtEof(cs: int): seq<Action> {
    if cs == 17 || cs == 19 || cs == 20 then [QueryEnd] else []
  }

  /** The single keys of a state, in order: its part of the keys table. */
  function Singles(cs: int): seq<int> {
    match cs
    case 1 | 16 | 18 | 20 => [13, 32, 35, 95]
    case 2 => [10]
    case 3 => [13, 32, 61, 95]
    case 4 => [13, 32, 61]
    case 5 => [13, 32, 34]
    case 6 | 7 => [34]
    case 17 | 19 => [13, 32, 34, 35, 95]
    case _ => [34, 37]
  }

  /** The ends of the key ranges of a state, in order. */
  function Ranges(cs: int): seq<int> {
    match cs
    case 1 | 3 | 16 | 17 | 18 | 19 | 20 => [9, 10, 48, 57, 65, 90, 97, 122]
    case 4 | 5 => [9, 10]
    case _ => []
  }

  /** The transitions of a state: one for each single key, one for each range, and one for any other character. */
  function Row(cs: int): seq<int> {
    if cs < 8 then RowBefore(cs) else if cs < 16 then RowWithin(cs) else RowBehind(cs)
  }

  function RowBefore(cs: int): seq<int> {
    match cs
    case 1 => [0, 0, 2, 3, 0, 3, 3, 3, 1]
    case 2 => [0, 2]
    case 3 => [4, 4, 5, 3, 4, 3, 3, 3, 1]
    case 4 => [6, 6, 7, 6, 1]
    case 5 => [7, 7, 8, 7, 1]
    case 6 => [9, 1]
    case _ => [10, 1]
  }

  function RowWithin(cs: int): seq<int> {
    match cs
    case 8 => [12, 13, 11]
    case 9 => [15, 16, 14]
    case 10 => [17, 16, 14]
    case 11 => [18, 16, 14]
    case 12 => [20, 1, 19]
    case 13 => [22, 23, 21]
    case 14 => [24, 23, 21]
    case _ => [1, 23, 21]
  }

  function RowBehind(cs: int): seq<int> {
    match cs
    case 16 => [0, 0, 2, 3, 0, 3, 3, 3, 1]
    case 17 => [25, 25, 26, 27, 28, 25, 28, 28, 28, 1]
    case 18 => [29, 29, 2, 3, 29, 3, 3, 3, 1]
    case 19 => [25, 25, 30, 27, 28, 25, 28, 28, 28, 1]
    case _ => [25, 25, 27, 28, 25, 28, 28, 28, 1]
  }

  /** The state a transition leads to. */
  function Target(trans: int): int {
    match trans
    case 0 => 1
    case 2 => 2 case 3 => 3 case 4 => 4 case 5 => 5 case 6 => 4 case 7 => 5 case 8 => 6 case 9 => 7 case 10 => 8
    case 11 => 9 case 12 => 10 case 13 => 12 case 14 => 9 case 15 => 10 case 16 => 12 case 17 => 11 case 18 => 17
    case 19 => 13 case 20 => 14 case 21 => 13 case 22 => 14 case 23 => 9 case 24 => 15
    case 25 => 18 case 26 => 19 case 27 => 2 case 28 => 3 case 29 => 18 case 30 => 20
    case _ => ERROR
  }

  /** The actions of a transition. */
  function Actions(trans: int): seq<Action> {
    match trans
    case 3 => [StrChar]
    case 4 | 5 => [Key]
    case 11 | 12 | 13 => [QueryStart]
    case 19 | 20 => [SubstBegin]
    case 23 => [SubstEnd]
    case 25 | 27 => [QueryEnd]
    case 28 => [QueryEnd, StrChar]
    case _ => []
  }

  /** The first position of c, or the length. */
  function Find(keys: seq<int>, c: int): (k: nat)
    ensures k <= |keys| && c !in keys[..k] && (k < |keys| ==> keys[k] == c)
  {
    if keys == [] || keys[0] == c then 0 else
      var k := Find(keys[1..], c);
      assert keys[..1 + k] == [keys[0]] + keys[1..][..k];
      1 + k
  }

  predicate InRange(ends: seq<int>, j: nat, c: int)
    requires 2 * j + 1 < |ends|
  {
    ends[2 * j] <= c <= ends[2 * j + 1]
  }

  /** The number of the first range that holds c, or the number of ranges. */
  function FindRange(ends: seq<int>, c: int): (j: nat)
    requires |ends| % 2 == 0
    ensures 2 * j <= |ends| && (2 * j < |ends| ==> InRange(ends, j, c))
    ensures forall i :: 0 <= i < j ==> !InRange(ends, i, c)
    decreases |ends|
  {
    if ends == [] || InRange(ends, 0, c) then 0 else
      var j := FindRange(ends[2..], c);
      assert forall i :: 1 <= i < 1 + j ==> InRange(ends, i, c) == InRange(ends[2..], i - 1, c);
      1 + j
  }

  /** The place of a character code in a row: that of the single key, or else of the first range that holds it, or
      else the last. */
  function Place(keys: seq<int>, ends: seq<int>, c: int): int
    requires |ends| % 2 == 0
  {
    var i := Find(keys, c);
    if i < |keys| then i else i + FindRange(ends, c)
  }

  lemma KeyPlaces(keys: seq<int>, c: int)
    ensures Find(keys, c) <= |keys|
    ensures forall k {:trigger keys[k]} :: 0 <= k < Find(keys, c) ==> keys[k] != c
  {
    var f := Find(keys, c);
    forall k {:trigger keys[k]} | 0 <= k < f ensures keys[k] != c {
      assert keys[..f][k] == keys[k];
    }
  }

  /** The number of the key range of a character. */
  function CharClass(c: char): nat {
    if c == '\t' || c == '\n' then 0 else if '0' <= c <= '9' then 1 else if 'A' <= c <= 'Z' then 2
    else if 'a' <= c <= 'z' then 3 else 4
  }

  lemma ClassRange(c: char)
    ensures FindRange([9, 10, 48, 57, 65, 90, 97, 122], c as int) == CharClass(c)
  {
    var ends := [9, 10, 48, 57, 65, 90, 97, 122];
    assert InRange(ends, 0, c as int) <==> c == '\t' || c == '\n';
    assert InRange(ends, 1, c as int) <==> '0' <= c <= '9';
    assert InRange(ends, 2, c as int) <==> 'A' <= c <= 'Z';
    assert InRange(ends, 3, c as int) <==> 'a' <= c <= 'z';
  }

  /** The rows with the keys of comments and names: four single keys, and one more for a quote. */
  lemma WideRow(c: char)
    ensures Place([13, 32, 35, 95], [9, 10, 48, 57, 65, 90, 97, 122], c as int)
         == if c == '\r' then 0 else if c == ' ' then 1 else if c == '#' then 2 else if c == '_' then 3
            else 4 + CharClass(c)
  {
    KeyPlaces([13, 32, 35, 95], c as int);
    ClassRange(c);
  }

  lemma KeyWideRow(c: char)
    ensures Place([13, 32, 61, 95], [9, 10, 48, 57, 65, 90, 97, 122], c as int)
         == if c == '\r' then 0 else if c == ' ' then 1 else if c == '=' then 2 else if c == '_' then 3
            else 4 + CharClass(c)
  {
    KeyPlaces([13, 32, 61, 95], c as int);
    ClassRange(c);
  }

  lemma QuoteWideRow(c: char)
    ensures Place([13, 32, 34, 35, 95], [9, 10, 48, 57, 65, 90, 97, 122], c as int)
         == if c == '\r' then 0 else if c == ' ' then 1 else if c == '"' then 2 else if c == '#' then 3
            else if c == '_' then 4 else 5 + CharClass(c)
  {
    KeyPlaces([13, 32, 34, 35, 95], c as int);
    ClassRange(c);
  }

  /** The rows with white space and one more key. */
  lemma SpaceRow(c: char)
    ensures Place([13, 32, 61], [9, 10], c as int)
         == if c == '\r' then 0 else if c == ' ' then 1 else if c == '=' then 2
            else if c == '\t' || c == '\n' then 3 else 4
    ensures Place([13, 32, 34], [9, 10], c as int)
         == if c == '\r' then 0 else if c == ' ' then 1 else if c == '"' then 2
            else if c == '\t' || c == '\n' then 3 else 4
  {
    KeyPlaces([13, 32, 61], c as int);
    KeyPlaces([13, 32, 34], c as int);
    assert InRange([9, 10], 0, c as int) <==> c == '\t' || c == '\n';
  }

  /** The rows without ranges. */
  lemma KeyRow(c: char)
    ensures Place([10], [], c as int) == if c == '\n' then 0 else 1
    ensures Place([34], [], c as int) == if c == '"' then 0 else 1
    ensures Place([34, 37], [], c as int) == if c == '"' then 0 else if c == '%' then 1 else 2
  {
    KeyPlaces([10], c as int);
    KeyPlaces([34], c as int);
    KeyPlaces([34, 37], c as int);
  }

  /** The entry of a row for a character code. */
  function RowEntry(keys: seq<int>, ends: seq<int>, row: seq<int>, c: int): int {
    if |ends| % 2 == 0 then
      var k := Place(keys, ends, c);
      if 0 <= k < |row| then row[k] else 1
    else 1
  }

  /** The transition the tables hold for a state and a character. */
  function EntryFor(cs: int, c: char): int {
    RowEntry(Singles(cs), Ranges(cs), Row(cs), c as int)
  }

  /** The entry of a row with the keys of comments and names. */
  lemma WideEntry(cs: int, w: int, h: int, n: int, c: char)
    requires Singles(cs) == [13, 32, 35, 95] && Ranges(cs) == [9, 10, 48, 57, 65, 90, 97, 122]
    requires Row(cs) == [w, w, h, n, w, n, n, n, 1]
    ensures EntryFor(cs, c)
            == if IsSpace(c) then w else if c == '#' then h else if IsKeyChar(c) then n else 1
  {
    WideRow(c);
  }

  lemma KeyWideEntry(cs: int, w: int, e: int, n: int, c: char)
    requires Singles(cs) == [13, 32, 61, 95] && Ranges(cs) == [9, 10, 48, 57, 65, 90, 97, 122]
    requires Row(cs) == [w, w, e, n, w, n, n, n, 1]
    ensures EntryFor(cs, c)
            == if IsSpace(c) then w else if c == '=' then e else if IsKeyChar(c) then n else 1
  {
    KeyWideRow(c);
  }

  lemma QuoteWideEntry(cs: int, w: int, q: int, h: int, n: int, c: char)
    requires Singles(cs) == [13, 32, 34, 35, 95] && Ranges(cs) == [9, 10, 48, 57, 65, 90, 97, 122]
    requires Row(cs) == [w, w, q, h, n, w, n, n, n, 1]
    ensures EntryFor(cs, c)
            == if IsSpace(c) then w else if c == '"' then q else if c == '#' then h else if IsKeyChar(c) then n else 1
  {
    QuoteWideRow(c);
  }

  /** The tables agree with the grammar on a state and a character. */
  ghost predicate Agree(cs: int, c: char) {
    (Target(EntryFor(cs, c)), Actions(EntryFor(cs, c))) == Delta(cs, c)
  }

  /** What the transitions between definitions mean. */
  lemma BetweenDelta(cs: int, x: int, c: char)
    requires cs == 1 || cs == 16 || cs == 18
    requires x == if IsSpace(c) then (if cs == 18 then 29 else 0)
                  else if c == '#' then 2 else if IsKeyChar(c) then 3 else 1
    ensures (Target(x), Actions(x)) == Delta(cs, c)
  {
  }

  /** What the transitions behind a value mean. */
  lemma BehindDelta(cs: int, x: int, c: char)
    requires cs == 17 || cs == 19 || cs == 20
    requires x == if IsSpace(c) then 25 else if c == '"' then (if cs == 17 then 26 else if cs == 19 then 30 else 1)
                  else if c == '#' then 27 else if IsKeyChar(c) then 28 else 1
    ensures (Target(x), Actions(x)) == Delta(cs, c)
  {
  }

  lemma State1(c: char)
    ensures Agree(1, c)
  {
    WideEntry(1, 0, 2, 3, c);
    BetweenDelta(1, EntryFor(1, c), c);
  }

  lemma State2(c: char)
    ensures Agree(2, c)
  {
    KeyRow(c);
  }

  lemma State3(c: char)
    ensures Agree(3, c)
  {
    KeyWideEntry(3, 4, 5, 3, c);
  }

  lemma State4(c: char)
    ensures Agree(4, c)
  {
    SpaceRow(c);
  }

  lemma State5(c: char)
    ensures Agree(5, c)
  {
    SpaceRow(c);
  }

  lemma State6(c: char)
    ensures Agree(6, c)
  {
    KeyRow(c);
  }

  lemma State7(c: char)
    ensures Agree(7, c)
  {
    KeyRow(c);
  }

  lemma State8(c: char)
    ensures Agree(8, c)
  {
    KeyRow(c);
  }

  lemma State9(c: char)
    ensures Agree(9, c)
  {
    KeyRow(c);
  }

  lemma State10(c: char)
    ensures Agree(10, c)
  {
    KeyRow(c);
  }

  lemma State11(c: char)
    ensures Agree(11, c)
  {
    KeyRow(c);
  }

  lemma State12(c: char)
    ensures Agree(12, c)
  {
    KeyRow(c);
  }

  lemma State13(c: char)
    ensures Agree(13, c)
  {
    KeyRow(c);
  }

  lemma State14(c: char)
    ensures Agree(14, c)
  {
    KeyRow(c);
  }

  lemma State15(c: char)
    ensures Agree(15, c)
  {
    KeyRow(c);
  }

  lemma State16(c: char)
    ensures Agree(16, c)
  {
    WideEntry(16, 0, 2, 3, c);
    BetweenDelta(16, EntryFor(16, c), c);
  }

  lemma State17(c: char)
    ensures Agree(17, c)
  {
    QuoteWideEntry(17, 25, 26, 27, 28, c);
    BehindDelta(17, EntryFor(17, c), c);
  }

  lemma State18(c: char)
    ensures Agree(18, c)
  {
    WideEntry(18, 29, 2, 3, c);
    BetweenDelta(18, EntryFor(18, c), c);
  }

  lemma State19(c: char)
    ensures Agree(19, c)
  {
    QuoteWideEntry(19, 25, 30, 27, 28, c);
    BehindDelta(19, EntryFor(19, c), c);
  }

  lemma State20(c: char)
    ensures Agree(20, c)
  {
    WideEntry(20, 25, 27, 28, c);
    BehindDelta(20, EntryFor(20, c), c);
  }

  /** The tables hold the transitions of the grammar. */
  lemma TablesHoldDelta(cs: int, c: char)
    requires 1 <= cs <= 20
    ensures Agree(cs, c)
  {
    match cs {
      case 1 => State1(c);
      case 2 => State2(c);
      case 3 => State3(c);
      case 4 => State4(c);
      case 5 => State5(c);
      case 6 => State6(c);
      case 7 => State7(c);
      case 8 => State8(c);
      case 9 => State9(c);
      case 10 => State10(c);
      case 11 => State11(c);
      case 12 => State12(c);
      case 13 => State13(c);
      case 14 => State14(c);
      case 15 => State15(c);
      case 16 => State16(c);
      case 17 => State17(c);
      case 18 => State18(c);
      case 19 => State19(c);
      case 20 => State20(c);
      case _ =>
    }
  }

  ghost predicate Increasing(keys: seq<int>) {
    forall i, j :: 0 <= i < j < |keys| ==> keys[i] < keys[j]
  }

  /** The keys are sorted, and the rows as long as the keys say. */
  lemma TablesAreSorted(cs: int)
    requires 1 <= cs <= 20
    ensures Increasing(Singles(cs)) && Increasing(Ranges(cs)) && |Ranges(cs)| % 2 == 0
    ensures |Row(cs)| == |Singles(cs)| + |Ranges(cs)| / 2 + 1
  {
  }

  /** Binary search among the single keys. */
  method FindSingle(keys: seq<int>, c: int) returns (found: bool, mid: nat)
    requires Increasing(keys)
    ensures found <==> Find(keys, c) < |keys|
    ensures found ==> mid == Find(keys, c)
  {
    var lower, upper := 0, |keys| - 1;
    while lower <= upper
      invariant 0 <= lower <= upper + 1 <= |keys|
      invariant forall i :: 0 <= i < lower ==> keys[i] < c
      invariant forall i :: upper < i < |keys| ==> c < keys[i]
    {
      mid := lower + (upper - lower) / 2;
      if c < keys[mid] {
        upper := mid - 1;
      } else if c > keys[mid] {
        lower := mid + 1;
      } else {
        assert c !in keys[..mid];
        return true, mid;
      }
    }
    return false, 0;
  }

  /** Binary search among the key ranges: the pointers stay on the lower ends. */
  method FindKeyRange(ends: seq<int>, c: int) returns (found: bool, mid: nat)
    requires Increasing(ends) && |ends| % 2 == 0
    ensures found <==> 2 * FindRange(ends, c) < |ends|
    ensures found ==> mid == 2 * FindRange(ends, c)
  {
    var lower, upper := 0, |ends| - 2;
    ghost var lo, hi, n := 0, |ends| / 2 - 1, |ends| / 2;
    while lower <= upper
      invariant lower == 2 * lo && upper == 2 * hi && 0 <= lo <= hi + 1 <= n
      invariant forall j :: 0 <= j < lo ==> !InRange(ends, j, c)
      invariant forall j :: hi < j < n ==> !InRange(ends, j, c)
    {
      mid := lower + ((upper - lower) / 2 - (upper - lower) / 2 % 2);
      ghost var m := lo + (hi - lo) / 2;
      assert mid == 2 * m;
      if c < ends[mid] {
        OthersMiss(ends, c, m);
        upper, hi := mid - 2, m - 1;
      } else if c > ends[mid + 1] {
        OthersMiss(ends, c, m);
        lower, lo := mid + 2, m + 1;
      } else {
        OthersMiss(ends, c, m);
        assert InRange(ends, m, c);
        return true, mid;
      }
    }
    return false, 0;
  }

  /** What comparing with one range says about the others. */
  lemma OthersMiss(ends: seq<int>, c: int, m: nat)
    requires Increasing(ends) && 2 * m + 1 < |ends|
    ensures c <= ends[2 * m + 1] ==> forall j :: m < j < |ends| / 2 ==> !InRange(ends, j, c)
    ensures ends[2 * m] <= c ==> forall j :: 0 <= j < m ==> !InRange(ends, j, c)
    ensures c < ends[2 * m] || ends[2 * m + 1] < c ==> !InRange(ends, m, c)
  {
  }

  /** Look up the transition for a character. */
  method FindTransition(cs: int, c: char) returns (trans: int)
    requires 1 <= cs <= 20
    ensures (Target(trans), Actions(trans)) == Delta(cs, c)
  {
    assert (Target(EntryFor(cs, c)), Actions(EntryFor(cs, c))) == Delta(cs, c) by {
      TablesHoldDelta(cs, c);
    }
    TablesAreSorted(cs);
    trans := Lookup(Singles(cs), Ranges(cs), Row(cs), c as int);
  }

  method Lookup(keys: seq<int>, ends: seq<int>, row: seq<int>, c: int) returns (trans: int)
    requires Increasing(keys) && Increasing(ends) && |ends| % 2 == 0 && |row| == |keys| + |ends| / 2 + 1
    ensures trans == RowEntry(keys, ends, row, c)
  {
    var i := 0;
    var found, mid := FindSingle(keys, c);
    if found {
      i := mid;
    } else {
      i := |keys|;
      found, mid := FindKeyRange(ends, c);
      i := i + if found then mid / 2 else |ends| / 2;
    }
    trans := row[i];
  }
}
