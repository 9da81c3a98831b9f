/** The macro parser itself: the table-driven loop with its position variables. */
module MacroParser {
  import opened MacroTables
  import opened MacroRuns

  /** The variables of the parser, apart from the state and the position. */
  datatype Vars = Vars(strStart: nat, substStart: nat, lastKey: string, buf: string,
                       substitutions: seq<Substitution>, macros: Macros)

  /** What the variables hold, apart from positions. */
  ghost predicate Fields(v: Vars, x: Config) {
    v.lastKey == x.lastKey && v.buf == x.buf && v.macros == x.macros && v.substitutions == Substitutions(x.parts)
  }

  /** The number of quotes a state has just seen in a value. */
  function Quotes(cs: int): nat {
    if cs == 10 then 1 else if cs == 11 then 2
    else if cs == 17 then 3 else if cs == 19 then 4 else if cs == 20 then 5 else 0
  }

  ghost predicate EndQuoted(parts: seq<Part>, n: nat) {
    n <= |parts| && forall i :: |parts| - n <= i < |parts| ==> parts[i] == QUOTE
  }

  /** The positions delimit what has been read of a value and of a name. */
  ghost predicate Positions(v: Vars, text: string, x: Config) {
    && v.strStart <= x.p <= |text| && v.substStart <= x.p
    && EndQuoted(x.parts, Quotes(x.cs))
    && if InValue(x.cs) then text[v.strStart..x.p] == ValueText(x.parts)
       else if x.cs == 12 then text[v.strStart..x.p] == ValueText(x.parts) + "%"
       else if 13 <= x.cs <= 15 then
         text[v.strStart..x.p] == ValueText(x.parts) + "%" + x.name && text[v.substStart..x.p] == x.name
       else x.parts == []
  }

  ghost predicate Linked(v: Vars, text: string, x: Config) {
    1 <= x.cs <= 20 && Fields(v, x) && Positions(v, text, x)
  }

  /** Apply the substitutions found in a value, the last one first. */
  method Substitute(value: string, substs: seq<Substitution>, macros: Macros) returns (query: string)
    requires InPlace(substs, value)
    ensures query == ReplaceAll(value, substs, macros)
  {
    query := value;
    var i := |substs|;
    assert substs[..i] == substs;
    while i != 0
      invariant 0 <= i <= |substs| && ReplaceAll(query, substs[..i], macros) == ReplaceAll(value, substs, macros)
      invariant forall j :: 0 <= j < i ==> substs[j].begin + substs[j].n <= |query|
      decreases i
    {
      i := i - 1;
      var s := substs[i];
      assert substs[..i + 1][..i] == substs[..i];
      if s.macro in macros {
        query := Replace(query, s.begin, s.n, macros[s.macro]);
      }
    }
  }

  /** The action at the end of a value. */
  method QueryEndAction(text: string, p: nat, v: Vars, ghost x: Config) returns (w: Vars)
    requires Linked(v, text, x) && p == x.p && 3 <= Quotes(x.cs)
    ensures Fields(w, Perform(x, QueryEnd, ' ')) && w.strStart == v.strStart && w.substStart == v.substStart
  {
    var query := ExpandQuery(text, p, v, x.parts);
    w := v.(substitutions := [], macros := v.macros[v.lastKey := query]);
  }

  /** The value that ends in front of p without the quotes that close it, its names replaced. */
  method ExpandQuery(text: string, p: nat, v: Vars, ghost parts: seq<Part>) returns (query: string)
    requires v.strStart <= p <= |text| && text[v.strStart..p] == ValueText(parts) && EndQuoted(parts, 3)
    requires v.substitutions == Substitutions(parts)
    ensures query == Expand(Closed(parts), v.macros)
  {
    ClosedPlace(text, v.strStart, p, parts);
    SubstitutionsInPlace(Closed(parts));
    query := Substitute(text[v.strStart..p - 3], v.substitutions, v.macros);
    SubstitutionsExpand(Closed(parts), v.macros);
  }

  lemma ClosedPlace(text: string, a: nat, p: nat, parts: seq<Part>)
    requires a <= p <= |text| && text[a..p] == ValueText(parts) && EndQuoted(parts, 3)
    ensures a <= p - 3 && text[a..p - 3] == ValueText(Closed(parts))
    ensures Substitutions(parts) == Substitutions(Closed(parts))
  {
    QuotesOff(parts);
    CutQuotes(text, a, p, ValueText(Closed(parts)));
  }

  lemma CutQuotes(text: string, a: nat, p: nat, value: string)
    requires a <= p <= |text| && text[a..p] == value + "\"\"\""
    ensures a <= p - 3 && text[a..p - 3] == value
  {
    assert text[a..p][..p - 3 - a] == text[a..p - 3];
  }

  /** The three closing quotes are no part of the value and hold no names. */
  lemma QuotesOff(parts: seq<Part>)
    requires EndQuoted(parts, 3)
    ensures ValueText(parts) == ValueText(Closed(parts)) + "\"\"\""
    ensures Substitutions(parts) == Substitutions(Closed(parts))
  {
    var closed := Closed(parts);
    assert parts == closed + [QUOTE] + [QUOTE] + [QUOTE];
    QuoteOn(closed);
    QuoteOn(closed + [QUOTE]);
    QuoteOn(closed + [QUOTE] + [QUOTE]);
    ThreeQuotes(ValueText(closed));
  }

  lemma QuoteOn(parts: seq<Part>)
    ensures ValueText(parts + [QUOTE]) == ValueText(parts) + "\""
    ensures Substitutions(parts + [QUOTE]) == Substitutions(parts)
  {
    assert (parts + [QUOTE])[..|parts|] == parts;
  }

  lemma ThreeQuotes(value: string)
    ensures value + "\"" + "\"" + "\"" == value + "\"\"\""
  {
  }

  lemma NamePlace(text: string, a: nat, b: nat, p: nat, value: string, name: string)
    requires a <= p <= |text| && b <= p && text[a..p] == value + "%" + name && text[b..p] == name
    ensures b - a - 1 == |value| && p - b == |name|
  {
    assert |text[a..p]| == p - a && |text[b..p]| == p - b;
  }

  lemma SubstitutionSnoc(parts: seq<Part>, name: string)
    ensures Substitutions(parts + [Ref(name)])
         == Substitutions(parts) + [Substitution(|ValueText(parts)|, |name| + 2, name)]
  {
    var whole := parts + [Ref(name)];
    assert whole != [] && whole[..|whole| - 1] == parts && whole[|whole| - 1] == Ref(name);
  }

  /** The action at the end of a name between percent signs: note where in the value it stands. */
  method SubstEndAction(text: string, p: nat, v: Vars, ghost x: Config) returns (w: Vars)
    requires Linked(v, text, x) && p == x.p && 13 <= x.cs <= 15
    ensures Fields(w, Perform(x, SubstEnd, ' ')) && w.strStart == v.strStart && w.substStart == v.substStart
  {
    var name := text[v.substStart..p];
    NamePlace(text, v.strStart, v.substStart, p, ValueText(x.parts), x.name);
    var subst := Substitution(v.substStart - v.strStart - 1, p - v.substStart + 2, name);
    w := v.(substitutions := v.substitutions + [subst]);
    assert w.substitutions == Substitutions(x.parts + [Ref(x.name)]) by {
      SubstitutionSnoc(x.parts, x.name);
    }
  }

  /** One action. */
  method Act(action: Action, c: char, text: string, p: nat, v: Vars, ghost x: Config) returns (w: Vars)
    requires Fields(v, x) && p == x.p
    requires action.QueryEnd? ==> Linked(v, text, x) && 3 <= Quotes(x.cs)
    requires action.QueryStart? ==> x.parts == []
    requires action.SubstEnd? ==> Linked(v, text, x) && 13 <= x.cs <= 15
    ensures Fields(w, Perform(x, action, c))
    ensures w.strStart == if action.QueryStart? then p else v.strStart
    ensures w.substStart == if action.SubstBegin? then p else v.substStart
  {
    w := v;
    match action {
      case StrChar => w := v.(buf := v.buf + [c]);
      case Key => w := v.(lastKey := v.buf, buf := "");
      case QueryStart => w := v.(strStart := p);
      case QueryEnd => w := QueryEndAction(text, p, v, x);
      case SubstBegin => w := v.(substStart := p);
      case SubstEnd => w := SubstEndAction(text, p, v, x);
    }
  }

  /** Which actions a transition can have. */
  lemma ActionsOf(cs: int, c: char)
    requires 1 <= cs <= 20
    ensures var actions := Delta(cs, c).1;
            && (actions == [] || actions == [StrChar] || actions == [Key]
                || (actions == [QueryStart] && cs == 8) || (actions == [SubstBegin] && cs == 12)
                || (actions == [SubstEnd] && 13 <= cs <= 15)
                || ((actions == [QueryEnd] || actions == [QueryEnd, StrChar]) && 3 <= Quotes(cs)))
    ensures 0 <= Delta(cs, c).0 <= 20
  {
  }

  /** What the actions of a transition do to the variables. */
  ghost predicate Acted(v: Vars, w: Vars, x: Config, c: char) {
    var actions := Delta(x.cs, c).1;
    && Fields(w, PerformAll(x, actions, c))
    && w.strStart == (if x.cs == 8 then x.p else v.strStart)
    && w.substStart == (if x.cs == 12 && c != '%' then x.p else v.substStart)
  }

  /** The loop over the actions of a transition. */
  method TakeActions(actions: seq<Action>, c: char, text: string, p: nat, v: Vars, ghost x: Config) returns (w: Vars)
    requires Linked(v, text, x) && p == x.p && actions == Delta(x.cs, c).1
    ensures Acted(v, w, x, c)
  {
    ActionsOf(x.cs, c);
    w := v;
    ghost var y := x;
    for i := 0 to |actions|
      invariant Fields(w, y) && y.p == x.p && (i == 0 ==> w == v && y == x)
      invariant PerformAll(y, actions[i..], c) == PerformAll(x, actions, c)
      invariant w.strStart == (if x.cs == 8 && 0 < i then p else v.strStart)
      invariant w.substStart == (if x.cs == 12 && c != '%' && 0 < i then p else v.substStart)
    {
      w := Act(actions[i], c, text, p, w, y);
      y := Perform(y, actions[i], c);
      assert actions[i..][1..] == actions[i + 1..];
    }
  }

  /** The positions follow when a character is taken. */
  lemma StepLinked(v: Vars, w: Vars, text: string, x: Config)
    requires Linked(v, text, x) && x.p < |text| && Acted(v, w, x, text[x.p])
    ensures Step(x, text[x.p]).cs != ERROR ==> Linked(w, text, Step(x, text[x.p]))
  {
    var c := text[x.p];
    if x.cs <= 7 || x.cs == 16 || x.cs == 18 {
      OutsideLinked(v, w, text, x);
    } else if x.cs <= 11 {
      ValueLinked(v, w, text, x);
    } else if x.cs <= 15 {
      NameLinked(v, w, text, x);
    } else {
      BehindLinked(v, w, text, x);
    }
  }

  lemma OutsideLinked(v: Vars, w: Vars, text: string, x: Config)
    requires x.cs <= 7 || x.cs == 16 || x.cs == 18
    requires Linked(v, text, x) && x.p < |text| && Acted(v, w, x, text[x.p])
    ensures Step(x, text[x.p]).cs != ERROR ==> Linked(w, text, Step(x, text[x.p]))
  {
    if 2 <= x.cs <= 7 {
      HeadStep(x, text[x.p]);
    } else {
      OutsideStep(x, text[x.p]);
    }
    SameParts(x, text[x.p]);
  }

  /** The actions leave the fields as the step does, before the character joins a value. */
  lemma SameParts(x: Config, c: char)
    requires 1 <= x.cs <= 20
    ensures var y, z := PerformAll(x, Delta(x.cs, c).1, c), Step(x, c);
            && z.lastKey == y.lastKey && z.buf == y.buf && z.macros == y.macros
            && Substitutions(z.parts) == Substitutions(y.parts)
  {
    var y := PerformAll(x, Delta(x.cs, c).1, c);
    assert (y.parts + [Text(c)])[..|y.parts|] == y.parts;
  }

  lemma ValueLinked(v: Vars, w: Vars, text: string, x: Config)
    requires 8 <= x.cs <= 11
    requires Linked(v, text, x) && x.p < |text| && Acted(v, w, x, text[x.p])
    ensures Step(x, text[x.p]).cs != ERROR ==> Linked(w, text, Step(x, text[x.p]))
  {
    SameParts(x, text[x.p]);
    assert text[w.strStart..x.p] == ValueText(x.parts) by {
      assert text[x.p..x.p] == "";
    }
    if text[x.p] == '%' {
      PercentStep(x);
      PercentPositions(w, text, x, Step(x, '%'));
    } else {
      TextStep(x, text[x.p]);
      ValuePositions(w, text, x, Step(x, text[x.p]));
    }
  }

  /** How the positions delimit a value that gets a percent sign, */
  lemma PercentPositions(w: Vars, text: string, x: Config, z: Config)
    requires 8 <= x.cs <= 11 && w.strStart <= x.p < |text| && w.substStart <= x.p && text[x.p] == '%'
    requires text[w.strStart..x.p] == ValueText(x.parts)
    requires z == x.(cs := 12, p := x.p + 1)
    ensures Positions(w, text, z)
  {
    Extend(text, w.strStart, x.p, ValueText(x.parts));
  }

  /** or grows by a character. */
  lemma ValuePositions(w: Vars, text: string, x: Config, z: Config)
    requires 8 <= x.cs <= 11 && w.strStart <= x.p < |text| && w.substStart <= x.p
    requires text[w.strStart..x.p] == ValueText(x.parts) && EndQuoted(x.parts, Quotes(x.cs))
    requires z.cs == (if text[x.p] == '"' then AfterQuote(x.cs) else 9) && z.p == x.p + 1
    requires z.parts == x.parts + [Text(text[x.p])]
    ensures Positions(w, text, z)
  {
    Extend(text, w.strStart, x.p, ValueText(x.parts));
    ValueSnoc(x.parts, Text(text[x.p]));
  }

  lemma NameLinked(v: Vars, w: Vars, text: string, x: Config)
    requires 12 <= x.cs <= 15
    requires Linked(v, text, x) && x.p < |text| && Acted(v, w, x, text[x.p])
    ensures Step(x, text[x.p]).cs != ERROR ==> Linked(w, text, Step(x, text[x.p]))
  {
    if x.cs == (if text[x.p] == '%' then 12 else 15) && (text[x.p] == '%' || text[x.p] == '"') {
      NameFails(x, text[x.p]);
    } else if text[x.p] == '%' {
      CloseLinked(v, w, text, x);
    } else {
      LongerNameLinked(v, w, text, x);
    }
  }

  lemma NameFails(x: Config, c: char)
    requires (x.cs == 12 && c == '%') || (x.cs == 15 && c == '"')
    ensures Step(x, c).cs == ERROR
  {
  }

  lemma CloseLinked(v: Vars, w: Vars, text: string, x: Config)
    requires 13 <= x.cs <= 15
    requires Linked(v, text, x) && x.p < |text| && text[x.p] == '%' && Acted(v, w, x, '%')
    ensures Linked(w, text, Step(x, '%'))
  {
    SameParts(x, '%');
    CloseNameStep(x);
    ClosePositions(w, text, x, Step(x, '%'));
  }

  lemma LongerNameLinked(v: Vars, w: Vars, text: string, x: Config)
    requires 12 <= x.cs <= 15 && x.p < |text| && !(x.cs == 15 && text[x.p] == '"')
    requires Linked(v, text, x) && text[x.p] != '%' && Acted(v, w, x, text[x.p])
    ensures Linked(w, text, Step(x, text[x.p]))
  {
    SameParts(x, text[x.p]);
    NameStep(x, text[x.p]);
    if x.cs == 12 {
      FirstPositions(w, text, x, Step(x, text[x.p]));
    } else {
      NamePositions(w, text, x, Step(x, text[x.p]));
    }
  }

  lemma FirstPositions(w: Vars, text: string, x: Config, z: Config)
    requires w.strStart <= w.substStart == x.p < |text| && text[w.strStart..x.p] == ValueText(x.parts) + "%"
    requires 13 <= z.cs <= 15 && z == x.(cs := z.cs, p := x.p + 1, name := [text[x.p]])
    ensures Positions(w, text, z)
  {
    assert ValueText(x.parts) + "%" + "" == ValueText(x.parts) + "%";
    NameGrows(text, w.strStart, x.p, x.p, ValueText(x.parts) + "%", "");
  }

  lemma NamePositions(w: Vars, text: string, x: Config, z: Config)
    requires w.strStart <= x.p < |text| && w.substStart <= x.p
    requires text[w.strStart..x.p] == ValueText(x.parts) + "%" + x.name && text[w.substStart..x.p] == x.name
    requires 13 <= z.cs <= 15 && z == x.(cs := z.cs, p := x.p + 1, name := x.name + [text[x.p]])
    ensures Positions(w, text, z)
  {
    NameGrows(text, w.strStart, w.substStart, x.p, ValueText(x.parts) + "%", x.name);
  }

  lemma NameGrows(text: string, a: nat, b: nat, p: nat, value: string, name: string)
    requires a <= p < |text| && b <= p && text[a..p] == value + name && text[b..p] == name
    ensures text[a..p + 1] == value + (name + [text[p]]) && text[b..p + 1] == name + [text[p]]
  {
    Extend(text, a, p, value + name);
    Extend(text, b, p, name);
    Associate(value, name, [text[p]]);
  }

  lemma CloseText(text: string, a: nat, p: nat, parts: seq<Part>, name: string)
    requires a <= p < |text| && text[a..p] == ValueText(parts) + "%" + name && text[p] == '%'
    ensures text[a..p + 1] == ValueText(parts + [Ref(name)])
  {
    Extend(text, a, p, ValueText(parts) + "%" + name);
    ValueSnoc(parts, Ref(name));
    Wrap(ValueText(parts), name);
  }

  lemma Wrap(value: string, name: string)
    ensures value + "%" + name + "%" == value + ("%" + name + "%")
  {
  }

  lemma ClosePositions(w: Vars, text: string, x: Config, z: Config)
    requires w.strStart <= x.p < |text| && w.substStart <= x.p && text[x.p] == '%'
    requires text[w.strStart..x.p] == ValueText(x.parts) + "%" + x.name
    requires z.cs == 9 && z.p == x.p + 1 && z.parts == x.parts + [Ref(x.name)]
    ensures Positions(w, text, z)
  {
    CloseText(text, w.strStart, x.p, x.parts, x.name);
  }

  lemma BehindLinked(v: Vars, w: Vars, text: string, x: Config)
    requires x.cs == 17 || 19 <= x.cs
    requires Linked(v, text, x) && x.p < |text| && Acted(v, w, x, text[x.p])
    ensures Step(x, text[x.p]).cs != ERROR ==> Linked(w, text, Step(x, text[x.p]))
  {
    var c := text[x.p];
    SameParts(x, c);
    if c != '"' {
      SettleStep(x, c);
      OutsideStep(Settled(x), c);
    } else if x.cs != 20 {
      QuoteStep(x);
      QuotePositions(v, w, text, x, Step(x, c));
    }
  }

  lemma QuotePositions(v: Vars, w: Vars, text: string, x: Config, z: Config)
    requires (x.cs == 17 || x.cs == 19) && Positions(v, text, x) && x.p < |text| && text[x.p] == '"'
    requires w.strStart == v.strStart && w.substStart == v.substStart
    requires z == x.(cs := AfterQuote(x.cs), p := x.p + 1, parts := x.parts + [QUOTE])
    ensures Positions(w, text, z)
  {
    Extend(text, w.strStart, x.p, ValueText(x.parts));
    ValueSnoc(x.parts, QUOTE);
  }

  lemma Extend(text: string, a: nat, p: nat, value: string)
    requires a <= p < |text| && text[a..p] == value
    ensures text[a..p + 1] == value + [text[p]]
  {
  }

  /** The round of the parser loop: look up the transition, act, and move on. */
  method TakeChar(cs: int, p: nat, text: string, v: Vars, ghost x: Config) returns (target: int, w: Vars)
    requires Linked(v, text, x) && x.cs == cs && x.p == p < |text|
    ensures target == Step(x, text[p]).cs && 0 <= target <= 20
    ensures target != ERROR ==> Linked(w, text, Step(x, text[p]))
  {
    var trans := FindTransition(cs, text[p]);
    ActionsOf(cs, text[p]);
    target := Target(trans);
    w := TakeActions(Actions(trans), text[p], text, p, v, x);
    StepLinked(v, w, text, x);
  }

  /** strlen. */
  method StringLength(data: string) returns (n: nat)
    ensures n <= |data| && data[..n] == CString(data)
  {
    n := 0;
    while n < |data| && data[n] != NUL
      invariant n <= |data| && CString(data) == data[..n] + CString(data[n..])
    {
      assert data[n..][0] == data[n] && data[n..][1..] == data[n + 1..];
      assert data[..n] + [data[n]] == data[..n + 1];
      ConcatOne(data[..n], data[n], CString(data[n + 1..]));
      n := n + 1;
    }
    assert CString(data[n..]) == "" && data[..n] + "" == data[..n];
  }

  lemma ConcatOne(a: string, c: char, b: string)
    ensures a + ([c] + b) == a + [c] + b
  {
  }

  /** The parser, on the characters before the first NUL. */
  method ParseMacros(data: string) returns (r: Outcome)
    ensures r == Run(INITIAL, CString(data))
  {
    var n := StringLength(data);
    r := ParseText(data[..n]);
  }

  /** The parser loop. */
  method ParseText(text: string) returns (r: Outcome)
    ensures r == Run(INITIAL, text)
  {
    var cs, p := START, 0;
    var v := Vars(0, 0, "", "", [], map[]);
    ghost var x := INITIAL;
    assert text[0..] == text;
    while p != |text|
      invariant 0 <= p <= |text| && x.cs == cs && x.p == p && Linked(v, text, x)
      invariant Run(x, text[p..]) == Run(INITIAL, text)
      decreases |text| - p
    {
      cs, v := TakeChar(cs, p, text, v, x);
      assert text[p..][0] == text[p] && text[p..][1..] == text[p + 1..];
      if cs == ERROR {
        return ErrorAt(p);
      }
      x := Step(x, text[p]);
      p := p + 1;
    }
    r := AtEnd(cs, p, text, v, x);
  }

  /** The actions at the end of the text, and the final check of the state. */
  method AtEnd(cs: int, p: nat, text: string, v: Vars, ghost x: Config) returns (r: Outcome)
    requires Linked(v, text, x) && x.cs == cs && x.p == p
    ensures r == Finish(x)
  {
    var w := v;
    FewActions(x, QueryEnd, QueryEnd, ' ');
    if AtEof(cs) == [QueryEnd] {
      w := QueryEndAction(text, p, v, x);
    }
    r := if cs < FIRST_FINAL then UnexpectedEnd else Parsed(w.macros);
  }
}
