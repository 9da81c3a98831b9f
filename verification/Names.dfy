/** The numeric-aware order of names: digit runs compare as numbers, everything else character by character. */
module Names {
  import opened Decimals
  import opened InfInts

  /** The number of digits a string starts with. */
  function DigitSpan(s: string): (n: nat)
    ensures n <= |s| && IsDigits(s[..n]) && (n < |s| ==> !IsDigit(s[n]))
  {
    if s != "" && IsDigit(s[0]) then 1 + DigitSpan(s[1..]) else 0
  }

  /** The length of the first token of a name: its leading digits, or one other character. */
  function RunLength(name: string): (n: nat)
    requires name != ""
    ensures 1 <= n <= |name| && IsToken(name[..n])
  {
    if IsDigit(name[0]) then DigitSpan(name) else 1
  }

  /** Maximal runs of digits, and every other character by itself. */
  function Runs(name: string): (tokens: seq<string>)
    ensures AllTokens(tokens)
    decreases |name|
  {
    if name == "" then [] else [name[..RunLength(name)]] + Runs(name[RunLength(name)..])
  }

  /** The tokens of a name: its runs, after an empty token if it does not start with a digit. */
  function Tokens(name: string): (tokens: seq<string>)
    ensures AllTokens(tokens)
  {
    if name == "" then [] else if IsDigit(name[0]) then Runs(name) else [""] + Runs(name)
  }

  function Join(tokens: seq<string>): string {
    if tokens == [] then "" else tokens[0] + Join(tokens[1..])
  }

  /** What is still to be pushed when buf has been collected and rest has not been read. */
  function Pending(buf: string, prevIsDigit: bool, rest: string): seq<string>
    decreases |rest|
  {
    if rest == "" then [buf]
    else if IsDigit(rest[0]) && prevIsDigit then Pending(buf + [rest[0]], true, rest[1..])
    else [buf] + Pending([rest[0]], IsDigit(rest[0]), rest[1..])
  }

  lemma {:induction false} PendingInNumber(buf: string, rest: string)
    ensures Pending(buf, true, rest) == [buf + rest[..DigitSpan(rest)]] + Runs(rest[DigitSpan(rest)..])
    decreases |rest|, 1
  {
    if rest == "" || !IsDigit(rest[0]) {
      assert DigitSpan(rest) == 0 && buf + rest[..0] == buf && rest[0..] == rest;
      if rest != "" {
        PendingAfterCharacter(buf, true, rest);
      }
    } else {
      PendingInNumber(buf + [rest[0]], rest[1..]);
      var n := DigitSpan(rest[1..]);
      assert buf + [rest[0]] + rest[1..][..n] == buf + rest[..n + 1];
      assert rest[1..][n..] == rest[n + 1..];
    }
  }

  lemma {:induction false} PendingAfterCharacter(buf: string, prevIsDigit: bool, rest: string)
    requires rest == "" || !prevIsDigit || !IsDigit(rest[0])
    ensures Pending(buf, prevIsDigit, rest) == [buf] + Runs(rest)
    decreases |rest|, 0
  {
    if rest == "" {
    } else {
      assert rest[..1] == [rest[0]];
      if IsDigit(rest[0]) {
        PendingInNumber([rest[0]], rest[1..]);
        var n := DigitSpan(rest[1..]);
        assert [rest[0]] + rest[1..][..n] == rest[..n + 1] && rest[1..][n..] == rest[n + 1..];
      } else {
        PendingAfterCharacter([rest[0]], false, rest[1..]);
      }
    }
  }

  method NameIndex(name: string) returns (index: seq<string>)
    ensures index == Tokens(name)
  {
    index := [];
    if |name| == 0 {
      return;
    }
    var buf := "";
    var prevIsDigit := IsDigit(name[0]);
    ghost var all := Pending(buf, prevIsDigit, name);
    for i := 0 to |name|
      invariant index + Pending(buf, prevIsDigit, name[i..]) == all
    {
      var curIsDigit := IsDigit(name[i]);
      assert name[i..][1..] == name[i + 1..] && name[i..][..1] == [name[i]];
      if curIsDigit && prevIsDigit {
        buf := buf + [name[i]];
      } else {
        index := index + [buf];
        buf := [name[i]];
      }
      prevIsDigit := curIsDigit;
    }
    index := index + [buf];
    if IsDigit(name[0]) {
      PendingInNumber("", name);
      assert "" + name[..DigitSpan(name)] == name[..DigitSpan(name)];
    } else {
      PendingAfterCharacter("", false, name);
    }
  }

  /** The tokens of a name put together again are the name. */
  lemma {:induction false} RunsJoin(name: string)
    ensures Join(Runs(name)) == name
    decreases |name|
  {
    if name == "" {
    } else {
      var k := RunLength(name);
      var first, rest := name[..k], name[k..];
      RunsJoin(rest);
      assert Runs(name) == [first] + Runs(rest);
      JoinCons(first, Runs(rest));
      assert name == first + rest;
    }
  }

  lemma JoinCons(token: string, tokens: seq<string>)
    ensures Join([token] + tokens) == token + Join(tokens)
  {
    assert ([token] + tokens)[1..] == tokens;
  }

  lemma TokensJoin(name: string)
    ensures Join(Tokens(name)) == name
  {
    RunsJoin(name);
    if name != "" && !IsDigit(name[0]) {
      assert Tokens(name)[1..] == Runs(name);
    }
  }

  /** The rank of a token: nothing, then characters below the digits, numbers, characters above the digits. */
  datatype Key = Key(group: int, rank: int)

  predicate IsNumber(token: string) {
    token != "" && IsDigit(token[0])
  }

  /** A token is empty, a digit run, or one character that is not a digit. */
  predicate IsToken(token: string) {
    token == "" || (IsDigits(token) && IsDigit(token[0])) || (|token| == 1 && !IsDigit(token[0]))
  }

  function TokenKey(token: string): Key
    requires IsToken(token)
  {
    if token == "" then Key(0, 0)
    else if IsNumber(token) then Key(2, DecimalValue(token))
    else Key(if token[0] < '0' then 1 else 3, token[0] as int)
  }

  predicate KeyLess(a: Key, b: Key) {
    a.group < b.group || (a.group == b.group && a.rank < b.rank)
  }

  ghost predicate AllTokens(tokens: seq<string>) {
    forall i :: 0 <= i < |tokens| ==> IsToken(tokens[i])
  }

  function Keys(tokens: seq<string>): (keys: seq<Key>)
    requires AllTokens(tokens)
    ensures |keys| == |tokens|
    ensures forall i :: 0 <= i < |tokens| ==> keys[i] == TokenKey(tokens[i])
  {
    seq(|tokens|, i requires 0 <= i < |tokens| => TokenKey(tokens[i]))
  }

  /** Lexicographic order; a proper prefix comes first. */
  predicate LexLess(a: seq<Key>, b: seq<Key>) {
    if b == [] then false
    else if a == [] then true
    else if a[0] != b[0] then KeyLess(a[0], b[0])
    else LexLess(a[1..], b[1..])
  }

  function NameKeys(name: string): seq<Key> {
    Keys(Tokens(name))
  }

  /** The order of names that NameCompare decides. */
  predicate NameLess(s: string, t: string) {
    LexLess(NameKeys(s), NameKeys(t))
  }

  /** std::string's operator<. */
  predicate StringLess(a: string, b: string) {
    if b == "" then false
    else if a == "" then true
    else if a[0] != b[0] then a[0] < b[0]
    else StringLess(a[1..], b[1..])
  }

  /** Tokens that are not both numbers compare as strings exactly as their keys do. */
  lemma TokenOrder(a: string, b: string)
    requires IsToken(a) && IsToken(b) && !(IsNumber(a) && IsNumber(b))
    ensures a == b <==> TokenKey(a) == TokenKey(b)
    ensures StringLess(a, b) <==> KeyLess(TokenKey(a), TokenKey(b))
  {
    if |a| == 1 && |b| == 1 {
      assert a == [a[0]] && b == [b[0]];
    }
  }

  /** Compare two tokens: they decide unless they are equal, as numbers if both are. */
  method TokenCompare(a: string, b: string) returns (decided: bool, less: bool)
    requires IsToken(a) && IsToken(b)
    ensures decided <==> TokenKey(a) != TokenKey(b)
    ensures decided ==> (less <==> KeyLess(TokenKey(a), TokenKey(b)))
  {
    less := false;
    if IsNumber(a) && IsNumber(b) {
      var d1 := new InfInt.FromString(a);
      var d2 := new InfInt.FromString(b);
      decided := d1.NotEqual(d2);
      if decided {
        less := d1.Less(d2);
      }
    } else {
      TokenOrder(a, b);
      decided := a != b;
      if decided {
        less := StringLess(a, b);
      }
    }
  }

  method NameCompare(s1: string, s2: string) returns (less: bool)
    ensures less <==> NameLess(s1, s2)
  {
    var i1 := NameIndex(s1);
    var i2 := NameIndex(s2);
    ghost var k1, k2 := NameKeys(s1), NameKeys(s2);
    var i := 0;
    while i < |i1| && i < |i2|
      invariant i <= |i1| && i <= |i2|
      invariant LexLess(k1, k2) <==> LexLess(k1[i..], k2[i..])
    {
      assert IsToken(i1[i]) && IsToken(i2[i]) && k1[i..][1..] == k1[i + 1..] && k2[i..][1..] == k2[i + 1..];
      var decided;
      decided, less := TokenCompare(i1[i], i2[i]);
      if decided {
        return;
      }
      i := i + 1;
    }
    if |i1| != |i2| {
      return |i1| < |i2|;
    }
    return false;
  }
}
