/** What the macro automaton computes: the definitions it accumulates, with values as lists of parts. */
module MacroRuns {
  import opened MacroTables

  type Macros = map<string, string>

  const NUL: char := '\0'

  /** A C string: what stands before the first NUL. */
  function CString(data: string): string {
    if data == "" || data[0] == NUL then "" else [data[0]] + CString(data[1..])
  }

  /** A value is a list of plain characters and names between percent signs. */
  datatype Part = Text(c: char) | Ref(name: string)

  const QUOTE: Part := Text('"')

  /** The text of a part and of a value. */
  function PartText(part: Part): string {
    match part
    case Text(c) => [c]
    case Ref(name) => "%" + name + "%"
  }

  function ValueText(parts: seq<Part>): string {
    if parts == [] then "" else ValueText(parts[..|parts| - 1]) + PartText(parts[|parts| - 1])
  }

  lemma ValueSnoc(parts: seq<Part>, last: Part)
    ensures ValueText(parts + [last]) == ValueText(parts) + PartText(last)
  {
    assert (parts + [last])[..|parts|] == parts;
  }

  /** One simultaneous rewrite from left to right: a name defined before becomes its value, an unknown one stays,
      and what is inserted is not looked at again. */
  function Rewrite(part: Part, macros: Macros): string {
    if part.Ref? && part.name in macros then macros[part.name] else PartText(part)
  }

  function Expand(parts: seq<Part>, macros: Macros): string {
    if parts == [] then "" else Expand(parts[..|parts| - 1], macros) + Rewrite(parts[|parts| - 1], macros)
  }

  /** A place in a value where a macro is to be substituted. */
  datatype Substitution = Substitution(begin: nat, n: nat, macro: string)

  /** The places of the names in a value. */
  function Substitutions(parts: seq<Part>): seq<Substitution> {
    if parts == [] then [] else
      var before, last := parts[..|parts| - 1], parts[|parts| - 1];
      match last
      case Text(_) => Substitutions(before)
      case Ref(name) => Substitutions(before) + [Substitution(|ValueText(before)|, |name| + 2, name)]
  }

  /** The places are within the text, in increasing order, do not overlap, and hold the names. */
  ghost predicate InPlace(substs: seq<Substitution>, text: string) {
    && (forall i :: 0 <= i < |substs| ==>
          substs[i].begin + substs[i].n <= |text|
          && text[substs[i].begin..substs[i].begin + substs[i].n] == "%" + substs[i].macro + "%")
    && (forall i, j :: 0 <= i < j < |substs| ==> substs[i].begin + substs[i].n <= substs[j].begin)
  }

  lemma {:induction false} SubstitutionsInPlace(parts: seq<Part>)
    ensures InPlace(Substitutions(parts), ValueText(parts))
  {
    if parts == [] {
    } else {
      var before, last := parts[..|parts| - 1], parts[|parts| - 1];
      SubstitutionsInPlace(before);
      MoreText(Substitutions(before), ValueText(before), PartText(last));
      if last.Ref? {
        MoreSubstitutions(Substitutions(before), ValueText(before), last.name);
      }
    }
  }

  lemma MoreText(substs: seq<Substitution>, text: string, more: string)
    requires InPlace(substs, text)
    ensures InPlace(substs, text + more)
  {
    forall i | 0 <= i < |substs|
      ensures substs[i].begin + substs[i].n <= |text + more|
      ensures (text + more)[substs[i].begin..substs[i].begin + substs[i].n] == "%" + substs[i].macro + "%"
    {
      assert (text + more)[substs[i].begin..substs[i].begin + substs[i].n]
          == text[substs[i].begin..substs[i].begin + substs[i].n];
    }
  }

  lemma MoreSubstitutions(substs: seq<Substitution>, text: string, name: string)
    requires InPlace(substs, text)
    ensures InPlace(substs + [Substitution(|text|, |name| + 2, name)], text + ("%" + name + "%"))
  {
    MoreText(substs, text, "%" + name + "%");
    var whole := text + ("%" + name + "%");
    assert whole[|text|..|text| + (|name| + 2)] == "%" + name + "%";
  }

  /** std::string::replace. */
  function Replace(text: string, begin: nat, n: nat, value: string): string
    requires begin + n <= |text|
  {
    text[..begin] + value + text[begin + n..]
  }

  /** Replacing from right to left while whatever stands behind the value stays is the rewrite from left to right. */
  function ReplaceAll(text: string, substs: seq<Substitution>, macros: Macros): string
    decreases |substs|
  {
    if substs == [] then text else
      var k := |substs| - 1;
      var s := substs[k];
      var next :=
        if s.macro in macros && s.begin + s.n <= |text| then Replace(text, s.begin, s.n, macros[s.macro]) else text;
      ReplaceAll(next, substs[..k], macros)
  }

  /** Replacing in a text that starts with a value gives the expanded value and leaves the rest. */
  ghost predicate Replaces(parts: seq<Part>, tail: string, macros: Macros) {
    ReplaceAll(ValueText(parts) + tail, Substitutions(parts), macros) == Expand(parts, macros) + tail
  }

  lemma {:induction false} ReplaceIsExpand(parts: seq<Part>, tail: string, macros: Macros)
    ensures Replaces(parts, tail, macros)
    decreases |parts|
  {
    if parts == [] {
      assert "" + tail == tail;
    } else {
      ReplaceIsExpand(parts[..|parts| - 1], Rewrite(parts[|parts| - 1], macros) + tail, macros);
      OneMoreReplaced(parts, tail, macros);
    }
  }

  /** Applying the substitutions found in a value from right to left expands it. */
  lemma SubstitutionsExpand(parts: seq<Part>, macros: Macros)
    ensures ReplaceAll(ValueText(parts), Substitutions(parts), macros) == Expand(parts, macros)
  {
    ReplaceIsExpand(parts, "", macros);
    assert ValueText(parts) + "" == ValueText(parts) && Expand(parts, macros) + "" == Expand(parts, macros);
  }

  lemma OneMoreReplaced(parts: seq<Part>, tail: string, macros: Macros)
    requires parts != []
    requires Replaces(parts[..|parts| - 1], Rewrite(parts[|parts| - 1], macros) + tail, macros)
    ensures Replaces(parts, tail, macros)
  {
    LastReplaced(parts, tail, macros);
    Associate(Expand(parts[..|parts| - 1], macros), Rewrite(parts[|parts| - 1], macros), tail);
  }

  /** The last part is rewritten first. */
  lemma LastReplaced(parts: seq<Part>, tail: string, macros: Macros)
    requires parts != []
    ensures var before, last := parts[..|parts| - 1], parts[|parts| - 1];
            ReplaceAll(ValueText(parts) + tail, Substitutions(parts), macros)
            == ReplaceAll(ValueText(before) + (Rewrite(last, macros) + tail), Substitutions(before), macros)
  {
    var before, last := parts[..|parts| - 1], parts[|parts| - 1];
    if last.Ref? {
      ReplaceLast(ValueText(before), last.name, tail, Substitutions(before), macros);
    } else {
      assert ValueText(before) + PartText(last) + tail == ValueText(before) + (PartText(last) + tail);
    }
  }

  lemma Associate(a: string, b: string, c: string)
    ensures a + b + c == a + (b + c)
  {
  }

  lemma ReplaceLast(head: string, name: string, tail: string, substs: seq<Substitution>, macros: Macros)
    ensures ReplaceAll(head + ("%" + name + "%") + tail, substs + [Substitution(|head|, |name| + 2, name)], macros)
         == ReplaceAll(head + (Rewrite(Ref(name), macros) + tail), substs, macros)
  {
    var text, all := head + ("%" + name + "%") + tail, substs + [Substitution(|head|, |name| + 2, name)];
    assert all[..|all| - 1] == substs;
    assert text[..|head|] == head && text[|head| + (|name| + 2)..] == tail;
    if name in macros {
      assert head + macros[name] + tail == head + (macros[name] + tail);
    } else {
      assert text == head + (("%" + name + "%") + tail);
    }
  }

  /** The parser between two characters. While a value is being read, parts holds what was read of it, and within a
      name between percent signs, name holds what was read of that. */
  datatype Config = Config(
    cs: int, p: nat, buf: string, lastKey: string, parts: seq<Part>, name: string, macros: Macros)

  const INITIAL: Config := Config(START, 0, "", "", [], "", map[])

  /** A value without the three quotes that close it. */
  function Closed(parts: seq<Part>): seq<Part> {
    if 3 <= |parts| then parts[..|parts| - 3] else []
  }

  function Perform(x: Config, action: Action, c: char): Config {
    match action
    case StrChar => x.(buf := x.buf + [c])
    case Key => x.(lastKey := x.buf, buf := "")
    case QueryStart => x.(parts := [])
    case QueryEnd => x.(macros := x.macros[x.lastKey := Expand(Closed(x.parts), x.macros)], parts := [])
    case SubstBegin => x.(name := "")
    case SubstEnd => x.(parts := x.parts + [Ref(x.name)], name := "")
  }

  function PerformAll(x: Config, actions: seq<Action>, c: char): Config
    decreases |actions|
  {
    if actions == [] then x else PerformAll(Perform(x, actions[0], c), actions[1..], c)
  }

  predicate InValue(cs: int) {
    9 <= cs <= 11 || cs == 17 || cs == 19 || cs == 20
  }

  /** Take one character: the actions first, then the character joins the value or the name it belongs to. */
  function Step(x: Config, c: char): Config {
    var (target, actions) := Delta(x.cs, c);
    var y := PerformAll(x, actions, c);
    y.(cs := target, p := x.p + 1,
       parts := if InValue(target) && c != '%' then y.parts + [Text(c)] else y.parts,
       name := if 13 <= target <= 15 then y.name + [c] else y.name)
  }

  datatype Outcome = Parsed(macros: Macros) | UnexpectedEnd | ErrorAt(p: nat)

  function Finish(x: Config): Outcome {
    if x.cs < FIRST_FINAL then UnexpectedEnd else Parsed(PerformAll(x, AtEof(x.cs), ' ').macros)
  }

  function Run(x: Config, text: string): Outcome
    decreases |text|
  {
    if text == "" then Finish(x) else
      var next := Step(x, text[0]);
      if next.cs == ERROR then ErrorAt(x.p) else Run(next, text[1..])
  }

  lemma FewActions(x: Config, a: Action, b: Action, c: char)
    ensures PerformAll(x, [], c) == x && PerformAll(x, [a], c) == Perform(x, a, c)
    ensures PerformAll(x, [a, b], c) == Perform(Perform(x, a, c), b, c)
  {
    assert [a][1..] == [] && [a, b][1..] == [b] && [b][1..] == [];
    assert PerformAll(Perform(x, a, c), [b], c) == PerformAll(Perform(Perform(x, a, c), b, c), [], c);
  }

  /** A plain character in a value. */
  lemma TextStep(x: Config, c: char)
    requires 8 <= x.cs <= 11 && (x.cs == 8 ==> x.parts == []) && c != '%'
    ensures Step(x, c) == x.(cs := if c == '"' then AfterQuote(x.cs) else 9, p := x.p + 1, parts := x.parts + [Text(c)])
  {
    FewActions(x, QueryStart, QueryStart, c);
  }

  /** One more quote behind a value that may be closed. */
  lemma QuoteStep(x: Config)
    requires x.cs == 17 || x.cs == 19
    ensures Step(x, '"') == x.(cs := AfterQuote(x.cs), p := x.p + 1, parts := x.parts + [QUOTE])
  {
  }

  /** A percent sign opens a name. */
  lemma PercentStep(x: Config)
    requires 8 <= x.cs <= 11 && (x.cs == 8 ==> x.parts == [])
    ensures Step(x, '%') == x.(cs := 12, p := x.p + 1)
  {
    FewActions(x, QueryStart, QueryStart, '%');
  }

  /** The first character of a name, and any other. */
  lemma NameStep(x: Config, c: char)
    requires 12 <= x.cs <= 15 && c != '%' && !(x.cs == 15 && c == '"')
    ensures Step(x, c) == x.(cs := if c != '"' then 13 else if x.cs == 12 then 14 else x.cs + 1, p := x.p + 1,
                             name := if x.cs == 12 then [c] else x.name + [c])
  {
    FewActions(x, SubstBegin, SubstBegin, c);
  }

  /** A percent sign closes a name. */
  lemma CloseNameStep(x: Config)
    requires 13 <= x.cs <= 15
    ensures Step(x, '%') == x.(cs := 9, p := x.p + 1, parts := x.parts + [Ref(x.name)], name := "")
  {
    FewActions(x, SubstEnd, SubstEnd, '%');
  }

  /** The parser behind a value that is closed. */
  function Settled(x: Config): Config {
    x.(cs := 18, macros := x.macros[x.lastKey := Expand(Closed(x.parts), x.macros)], parts := [])
  }

  /** Anything but a quote behind a value closes it and is then taken as between definitions. */
  lemma SettleStep(x: Config, c: char)
    requires (x.cs == 17 || x.cs == 19 || x.cs == 20) && c != '"'
    ensures Step(x, c).cs == Step(Settled(x), c).cs
    ensures Step(x, c).cs != ERROR ==> Step(x, c) == Step(Settled(x), c)
  {
    FewActions(x, QueryEnd, StrChar, c);
    FewActions(Settled(x), StrChar, StrChar, c);
  }

  /** Between definitions. */
  lemma OutsideStep(x: Config, c: char)
    requires x.cs == 1 || x.cs == 16 || x.cs == 18
    ensures Step(x, c).cs == Delta(x.cs, c).0
    ensures Step(x, c).cs != ERROR ==>
              Step(x, c) == x.(cs := Delta(x.cs, c).0, p := x.p + 1, buf := if IsKeyChar(c) then x.buf + [c] else x.buf)
  {
    FewActions(x, StrChar, StrChar, c);
  }

  /** In a comment, a key, and up to the opening quotes. */
  lemma HeadStep(x: Config, c: char)
    requires 2 <= x.cs <= 7
    ensures Step(x, c).cs == Delta(x.cs, c).0
    ensures Step(x, c).cs != ERROR ==>
              Step(x, c) == x.(cs := Delta(x.cs, c).0, p := x.p + 1,
                               buf := if x.cs != 3 then x.buf else if IsKeyChar(c) then x.buf + [c] else "",
                               lastKey := if x.cs == 3 && !IsKeyChar(c) then x.buf else x.lastKey)
  {
    FewActions(x, StrChar, StrChar, c);
    FewActions(x, Key, Key, c);
  }
}
