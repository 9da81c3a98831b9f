/** NameCompare is fit to order a std::map: a strict weak order whose classes ignore leading zeros. */
module NameOrder {
  import opened Decimals
  import opened Names

  lemma {:induction false} LexTrichotomy(a: seq<Key>, b: seq<Key>)
    ensures a == b ==> !LexLess(a, b) && !LexLess(b, a)
    ensures a != b ==> (LexLess(a, b) <==> !LexLess(b, a))
  {
    if a != [] && b != [] && a[0] == b[0] {
      LexTrichotomy(a[1..], b[1..]);
      assert a == [a[0]] + a[1..] && b == [b[0]] + b[1..];
    }
  }

  lemma {:induction false} LexTransitive(a: seq<Key>, b: seq<Key>, c: seq<Key>)
    requires LexLess(a, b) && LexLess(b, c)
    ensures LexLess(a, c)
  {
    if a != [] && a[0] == b[0] == c[0] {
      LexTransitive(a[1..], b[1..], c[1..]);
    }
  }

  /** Neither name precedes the other, so that a map takes them for the same key. */
  ghost predicate Equivalent(s: string, t: string) {
    !NameLess(s, t) && !NameLess(t, s)
  }

  lemma EquivalentKeys(s: string, t: string)
    ensures Equivalent(s, t) <==> NameKeys(s) == NameKeys(t)
  {
    LexTrichotomy(NameKeys(s), NameKeys(t));
  }

  /** Irreflexivity, asymmetry, transitivity, and transitivity of incomparability, for all names. */
  lemma StrictWeakOrder(s: string, t: string, u: string)
    ensures !NameLess(s, s)
    ensures NameLess(s, t) ==> !NameLess(t, s)
    ensures NameLess(s, t) && NameLess(t, u) ==> NameLess(s, u)
    ensures Equivalent(s, t) && Equivalent(t, u) ==> Equivalent(s, u)
    ensures NameLess(s, t) && Equivalent(t, u) ==> NameLess(s, u)
  {
    LexTrichotomy(NameKeys(s), NameKeys(s));
    LexTrichotomy(NameKeys(s), NameKeys(t));
    LexTrichotomy(NameKeys(t), NameKeys(u));
    LexTrichotomy(NameKeys(s), NameKeys(u));
    if NameLess(s, t) && NameLess(t, u) {
      LexTransitive(NameKeys(s), NameKeys(t), NameKeys(u));
    }
  }

  /** A name without the zeros that lead a run of digits; the last digit of a run always stays. */
  function StripZeros(name: string, afterDigit: bool): string {
    if name == "" then ""
    else if name[0] == '0' && !afterDigit && 1 < |name| && IsDigit(name[1]) then StripZeros(name[1..], false)
    else [name[0]] + StripZeros(name[1..], IsDigit(name[0]))
  }

  /** The shortest token with the same key. */
  function ShortToken(token: string): string
    requires IsToken(token)
  {
    if IsNumber(token) then Decimal(DecimalValue(token)) else token
  }

  lemma ShortTokenKey(token: string)
    requires IsToken(token)
    ensures IsToken(ShortToken(token)) && TokenKey(ShortToken(token)) == TokenKey(token)
    ensures (ShortToken(token) == "" <==> token == "") && (IsNumber(ShortToken(token)) <==> IsNumber(token))
  {
    if IsNumber(token) {
      DecimalRoundTrip(DecimalValue(token));
    }
  }

  /** Keys determine short tokens. */
  lemma EqualKeysShortTokens(a: string, b: string)
    requires IsToken(a) && IsToken(b)
    ensures TokenKey(a) == TokenKey(b) <==> ShortToken(a) == ShortToken(b)
  {
    ShortTokenKey(a);
    ShortTokenKey(b);
    if !IsNumber(a) && !IsNumber(b) && a != "" && b != "" {
      assert a == [a[0]] && b == [b[0]];
    }
  }

  function ShortTokens(tokens: seq<string>): (r: seq<string>)
    requires AllTokens(tokens)
    ensures |r| == |tokens| && AllTokens(r) && forall i :: 0 <= i < |r| ==> r[i] == ShortToken(tokens[i])
  {
    if tokens == [] then [] else
      ShortTokenKey(tokens[0]);
      [ShortToken(tokens[0])] + ShortTokens(tokens[1..])
  }

  /** After a digit of a number, the rest of the number stays as it is. */
  lemma {:induction false} StripAfterDigit(digits: string, rest: string)
    requires IsDigits(digits) && (rest == "" || !IsDigit(rest[0]))
    ensures StripZeros(digits + rest, true) == digits + StripZeros(rest, false)
  {
    if digits == "" {
      assert "" + rest == rest && "" + StripZeros(rest, false) == StripZeros(rest, false);
    } else {
      var c, more := digits[0], digits[1..];
      StripAfterDigit(more, rest);
      assert digits == [c] + more && digits + rest == [c] + (more + rest);
      assert [c] + (more + StripZeros(rest, false)) == digits + StripZeros(rest, false);
    }
  }

  /** Stripping a run of digits leaves the shortest numeral of its value. */
  lemma {:induction false} StripNumber(digits: string, rest: string)
    requires digits != "" && IsDigits(digits) && (rest == "" || !IsDigit(rest[0]))
    ensures StripZeros(digits + rest, false) == Decimal(DecimalValue(digits)) + StripZeros(rest, false)
  {
    var d, tail := digits[0], digits[1..];
    assert digits == [d] + tail && digits + rest == [d] + (tail + rest);
    if d == '0' && tail != "" {
      StripNumber(tail, rest);
      LeadingZero(tail);
      StripsZero(tail + rest);
    } else {
      KeepsDigit(d, tail, rest);
      CanonicalDigits(digits);
    }
  }

  lemma StripsZero(more: string)
    requires more != "" && IsDigit(more[0])
    ensures StripZeros("0" + more, false) == StripZeros(more, false)
  {
    assert ("0" + more)[1..] == more;
  }

  lemma KeepsDigit(d: char, tail: string, rest: string)
    requires IsDigit(d) && IsDigits(tail) && (rest == "" || !IsDigit(rest[0])) && (d != '0' || tail == "")
    ensures StripZeros([d] + (tail + rest), false) == [d] + tail + StripZeros(rest, false)
  {
    StripAfterDigit(tail, rest);
    assert ([d] + (tail + rest))[1..] == tail + rest;
    assert [d] + (tail + StripZeros(rest, false)) == [d] + tail + StripZeros(rest, false);
  }

  lemma LeadingZero(digits: string)
    requires IsDigits(digits)
    ensures DecimalValue(['0'] + digits) == DecimalValue(digits)
  {
    DecimalValueAppend("0", digits);
    assert "0"[..0] == "" && DecimalValue("0") == 0;
  }

  /** Stripping zeros shortens the first run of a name to the shortest token with its key. */
  lemma StripRun(name: string, k: nat)
    requires name != "" && k == RunLength(name)
    ensures StripZeros(name, false) == ShortToken(name[..k]) + StripZeros(name[k..], false)
  {
    var first, rest := name[..k], name[k..];
    assert name == first + rest;
    if IsDigit(name[0]) {
      StripNumber(first, rest);
    } else {
      assert first == [name[0]] && rest == name[1..];
    }
  }

  lemma RunsCons(name: string, k: nat)
    requires name != "" && k == RunLength(name)
    ensures Runs(name) == [name[..k]] + Runs(name[k..])
  {
  }

  lemma ShortTokensCons(token: string, tokens: seq<string>)
    requires IsToken(token) && AllTokens(tokens)
    ensures AllTokens([token] + tokens) && ShortTokens([token] + tokens) == [ShortToken(token)] + ShortTokens(tokens)
  {
    assert ([token] + tokens)[1..] == tokens;
  }

  /** Stripping zeros shortens every token. */
  lemma {:induction false} StripJoinsShortTokens(name: string)
    ensures StripZeros(name, false) == Join(ShortTokens(Runs(name)))
    decreases |name|
  {
    if name == "" {
    } else {
      var k := RunLength(name);
      var first, rest := name[..k], name[k..];
      StripJoinsShortTokens(rest);
      StripRun(name, k);
      RunsCons(name, k);
      ShortTokensCons(first, Runs(rest));
      JoinCons(ShortToken(first), ShortTokens(Runs(rest)));
    }
  }

  lemma {:induction false} SpanOfDigits(digits: string, rest: string)
    requires IsDigits(digits) && (rest == "" || !IsDigit(rest[0]))
    ensures DigitSpan(digits + rest) == |digits|
  {
    if digits == "" {
      assert digits + rest == rest;
    } else {
      assert (digits + rest)[1..] == digits[1..] + rest;
      SpanOfDigits(digits[1..], rest);
    }
  }

  /** The first character of a stripped name is a digit just when that of the name is. */
  lemma {:induction false} StripFirst(name: string)
    ensures StripZeros(name, false) == "" <==> name == ""
    ensures name != "" ==> (IsDigit(StripZeros(name, false)[0]) <==> IsDigit(name[0]))
  {
    if name != "" && name[0] == '0' && 1 < |name| && IsDigit(name[1]) {
      StripFirst(name[1..]);
    }
  }

  /** The runs of a stripped name are the short tokens of the name. */
  lemma {:induction false} RunsOfStripped(name: string)
    ensures Runs(StripZeros(name, false)) == ShortTokens(Runs(name))
    decreases |name|
  {
    if name == "" {
    } else {
      var k := RunLength(name);
      var first, rest := name[..k], name[k..];
      RunsOfStripped(rest);
      StripRun(name, k);
      RunsCons(name, k);
      ShortTokensCons(first, Runs(rest));
      ShortRun(name, k);
      RunsCons(StripZeros(name, false), |ShortToken(first)|);
    }
  }

  /** The first run of a stripped name is the short token of the first run. */
  lemma ShortRun(name: string, k: nat)
    requires name != "" && k == RunLength(name)
    ensures var s, short := StripZeros(name, false), ShortToken(name[..k]);
            s != "" && RunLength(s) == |short| && s[..|short|] == short && s[|short|..] == StripZeros(name[k..], false)
  {
    var short, stripped := ShortToken(name[..k]), StripZeros(name[k..], false);
    StripRun(name, k);
    StripFirst(name);
    StripFirst(name[k..]);
    assert (short + stripped)[..|short|] == short && (short + stripped)[|short|..] == stripped;
    if IsDigit(name[0]) {
      SpanOfDigits(short, stripped);
    }
  }

  /** Stripping leading zeros does not change the keys of a name. */
  lemma StrippedKeys(name: string)
    ensures NameKeys(StripZeros(name, false)) == NameKeys(name)
  {
    var s := StripZeros(name, false);
    RunsOfStripped(name);
    StripFirst(name);
    forall i | 0 <= i < |Tokens(name)|
      ensures TokenKey(Tokens(s)[i]) == TokenKey(Tokens(name)[i])
    {
      ShortTokenKey(Tokens(name)[i]);
    }
  }

  /** Two names are equivalent exactly when they differ only in zeros that lead a run of digits. */
  lemma EquivalentIffEqualWithoutZeros(s: string, t: string)
    ensures Equivalent(s, t) <==> StripZeros(s, false) == StripZeros(t, false)
  {
    EquivalentKeys(s, t);
    StrippedKeys(s);
    StrippedKeys(t);
    if NameKeys(s) == NameKeys(t) {
      forall i | 0 <= i < |Tokens(s)| ensures ShortToken(Tokens(s)[i]) == ShortToken(Tokens(t)[i]) {
        assert TokenKey(Tokens(s)[i]) == NameKeys(s)[i] == NameKeys(t)[i] == TokenKey(Tokens(t)[i]);
        EqualKeysShortTokens(Tokens(s)[i], Tokens(t)[i]);
      }
      assert ShortTokens(Tokens(s)) == ShortTokens(Tokens(t));
      ShortTokensOfRuns(s);
      ShortTokensOfRuns(t);
      StripJoinsShortTokens(s);
      StripJoinsShortTokens(t);
    }
  }

  /** The empty token in front does not change what the tokens join to. */
  lemma ShortTokensOfRuns(name: string)
    ensures Join(ShortTokens(Tokens(name))) == Join(ShortTokens(Runs(name)))
  {
    if name != "" && !IsDigit(name[0]) {
      assert Tokens(name)[1..] == Runs(name);
      JoinCons("", ShortTokens(Runs(name)));
    }
  }

  /** So "a7" and "a007" are one key of a map. */
  lemma LeadingZerosCollide()
    ensures Equivalent("a7", "a007")
  {
    EquivalentIffEqualWithoutZeros("a7", "a007");
    assert "a007"[1..] == "007" && "007"[1..] == "07" && "07"[1..] == "7" && "a7"[1..] == "7" && "7"[1..] == "";
    assert StripZeros("7", false) == "7" && StripZeros("07", false) == "7" && StripZeros("007", false) == "7";
  }

  /** A text can be cut in front of w without cutting a number. */
  predicate Cuts(p: string, w: string) {
    p == "" || w == "" || !IsDigit(p[|p| - 1]) || !IsDigit(w[0])
  }

  lemma {:induction false} SpanBefore(p: string, w: string)
    requires p != "" && Cuts(p, w)
    ensures DigitSpan(p + w) == DigitSpan(p)
    decreases |p|
  {
    assert (p + w)[0] == p[0] && (p + w)[1..] == p[1..] + w;
    if IsDigit(p[0]) {
      if |p| == 1 {
        assert p[1..] + w == w;
      } else {
        SpanBefore(p[1..], w);
      }
    }
  }

  /** The first run of a text is that of its first part. */
  lemma FirstRunCut(p: string, w: string) returns (k: nat)
    requires p != "" && Cuts(p, w)
    ensures k == RunLength(p) == RunLength(p + w)
    ensures (p + w)[..k] == p[..k] && (p + w)[k..] == p[k..] + w && Cuts(p[k..], w)
  {
    k := RunLength(p);
    SpanBefore(p, w);
    assert (p + w)[0] == p[0];
    assert p[k..] != "" ==> p[k..][|p[k..]| - 1] == p[|p| - 1];
  }

  lemma {:induction false} RunsCut(p: string, w: string)
    requires Cuts(p, w)
    ensures Runs(p + w) == Runs(p) + Runs(w)
    decreases |p|
  {
    if p == "" {
      assert p + w == w && [] + Runs(w) == Runs(w);
    } else {
      var k := FirstRunCut(p, w);
      var first, rest := p[..k], p[k..];
      RunsCut(rest, w);
      RunsCons(p, k);
      RunsCons(p + w, k);
      FirstTogether(first, Runs(rest), Runs(w));
    }
  }

  lemma FirstTogether(first: string, a: seq<string>, b: seq<string>)
    ensures [first] + (a + b) == [first] + a + b
  {
  }

  /** The tokens of a name that is not empty: what its first characters alone give, then the runs of the others. */
  lemma TokensCut(p: string, w: string)
    requires p != "" && Cuts(p, w)
    ensures Tokens(p + w) == Tokens(p) + Runs(w)
  {
    RunsCut(p, w);
    assert (p + w)[0] == p[0];
    FirstTogether("", Runs(p), Runs(w));
    NonEmptyTokens(p);
    NonEmptyTokens(p + w);
  }

  lemma NonEmptyTokens(name: string)
    requires name != ""
    ensures Tokens(name) == if IsDigit(name[0]) then Runs(name) else [""] + Runs(name)
  {
  }

  lemma KeysCut(a: seq<string>, b: seq<string>)
    requires AllTokens(a) && AllTokens(b)
    ensures AllTokens(a + b) && Keys(a + b) == Keys(a) + Keys(b)
  {
    assert forall i :: 0 <= i < |a + b| ==> (a + b)[i] == if i < |a| then a[i] else b[i - |a|];
  }

  /** Behind the same keys the first different ones decide. */
  lemma {:induction false} LexBranch(a: seq<Key>, x: Key, b: seq<Key>, y: Key, c: seq<Key>)
    requires x != y
    ensures LexLess(a + ([x] + b), a + ([y] + c)) <==> KeyLess(x, y)
    decreases |a|
  {
    if a == [] {
      assert a + ([x] + b) == [x] + b && a + ([y] + c) == [y] + c;
    } else {
      LexBranch(a[1..], x, b, y, c);
      assert (a + ([x] + b))[1..] == a[1..] + ([x] + b) && (a + ([y] + c))[1..] == a[1..] + ([y] + c);
    }
  }

  /** The key tokens of a name stand for what its first part p and a next run make of it. */
  lemma KeysBehind(p: string, w: string, token: string, rest: string) returns (before: seq<Key>)
    requires w != "" && Cuts(p, w) && token == w[..RunLength(w)] && rest == w[RunLength(w)..]
    ensures before == (if p != "" then Keys(Tokens(p)) else if IsDigit(w[0]) then [] else [Key(0, 0)])
    ensures NameKeys(p + w) == before + ([TokenKey(token)] + Keys(Runs(rest)))
  {
    RunsCons(w, RunLength(w));
    KeysCut([token], Runs(rest));
    assert Keys([token]) == [TokenKey(token)];
    if p != "" {
      before := Keys(Tokens(p));
      TokensCut(p, w);
      KeysCut(Tokens(p), Runs(w));
    } else if IsDigit(w[0]) {
      before := [];
      assert p + w == w && [] + Keys(Runs(w)) == Keys(Runs(w));
    } else {
      before := [Key(0, 0)];
      assert p + w == w;
      KeysCut([""], Runs(w));
      assert Keys([""]) == [Key(0, 0)];
    }
  }

  lemma NumberRun(s: string, u: string)
    requires s != "" && IsDigits(s) && (u == "" || !IsDigit(u[0]))
    ensures s + u != "" && IsDigit((s + u)[0]) && RunLength(s + u) == |s| && (s + u)[..|s|] == s && (s + u)[|s|..] == u
    ensures IsToken(s) && TokenKey(s) == Key(2, DecimalValue(s))
  {
    SpanOfDigits(s, u);
  }

  lemma CharacterRun(c: char, u: string)
    requires !IsDigit(c)
    ensures RunLength([c] + u) == 1 && ([c] + u)[..1] == [c] && ([c] + u)[1..] == u
    ensures IsToken([c]) && TokenKey([c]) == Key(if c < '0' then 1 else 3, c as int)
  {
  }

  /** Numbers ascend: of two names that go on with different numbers behind the same text, the one with the smaller
      number comes first, whatever follows. */
  lemma NumbersAscend(p: string, s: string, u: string, t: string, v: string)
    requires s != "" && IsDigits(s) && t != "" && IsDigits(t) && (p == "" || !IsDigit(p[|p| - 1]))
    requires (u == "" || !IsDigit(u[0])) && (v == "" || !IsDigit(v[0]))
    requires DecimalValue(s) != DecimalValue(t)
    ensures NameLess(p + (s + u), p + (t + v)) <==> DecimalValue(s) < DecimalValue(t)
  {
    NumberRun(s, u);
    NumberRun(t, v);
    var before := KeysBehind(p, s + u, s, u);
    var same := KeysBehind(p, t + v, t, v);
    LexBranch(before, TokenKey(s), Keys(Runs(u)), TokenKey(t), Keys(Runs(v)));
  }

  /** So do characters that are no digits. */
  lemma CharactersAscend(p: string, c: char, u: string, d: char, v: string)
    requires c != d && !IsDigit(c) && !IsDigit(d)
    ensures NameLess(p + ([c] + u), p + ([d] + v)) <==> c < d
  {
    CharacterRun(c, u);
    CharacterRun(d, v);
    var before := KeysBehind(p, [c] + u, [c], u);
    var same := KeysBehind(p, [d] + v, [d], v);
    LexBranch(before, TokenKey([c]), Keys(Runs(u)), TokenKey([d]), Keys(Runs(v)));
  }

  /** Behind some text a number has its place among the characters where the digits have theirs; at the start of a
      name it comes behind every character. */
  lemma NumbersAmongCharacters(p: string, s: string, u: string, c: char, v: string)
    requires s != "" && IsDigits(s) && !IsDigit(c) && (p == "" || !IsDigit(p[|p| - 1])) && (u == "" || !IsDigit(u[0]))
    ensures NameLess(p + (s + u), p + ([c] + v)) <==> p != "" && '9' < c
    ensures NameLess(p + ([c] + v), p + (s + u)) <==> p == "" || c < '0'
  {
    NumberRun(s, u);
    CharacterRun(c, v);
    var before := KeysBehind(p, s + u, s, u);
    var other := KeysBehind(p, [c] + v, [c], v);
    if p != "" {
      LexBranch(before, TokenKey(s), Keys(Runs(u)), TokenKey([c]), Keys(Runs(v)));
      LexBranch(before, TokenKey([c]), Keys(Runs(v)), TokenKey(s), Keys(Runs(u)));
    }
  }

  lemma {:induction false} LexShorter(a: seq<Key>, b: seq<Key>)
    requires b != []
    ensures LexLess(a, a + b) && !LexLess(a + b, a)
    decreases |a|
  {
    if a == [] {
    } else {
      LexShorter(a[1..], b);
      assert (a + b)[1..] == a[1..] + b;
    }
  }

  /** A name comes before those that go on where it ends, but for digits behind a digit. */
  lemma BeginningsFirst(p: string, w: string)
    requires w != "" && Cuts(p, w)
    ensures NameLess(p, p + w) && !NameLess(p + w, p)
  {
    if p == "" {
      assert p + w == w && [] + NameKeys(w) == NameKeys(w);
      LexShorter([], NameKeys(w));
    } else {
      TokensCut(p, w);
      KeysCut(Tokens(p), Runs(w));
      LexShorter(Keys(Tokens(p)), Keys(Runs(w)));
    }
  }
}
