/** What a definition in a macro file defines, in terms of the text it is read from. */
module MacroMeanings {
  import opened MacroDocuments
  import opened MacroRuns
  import opened MacroTables

  /** Text that can stand in a value as it is. */
  ghost predicate Plain(s: string) {
    '%' !in s && !HasTriple(s)
  }

  /** A name between percent signs. */
  ghost predicate IsName(s: string) {
    s != "" && Plain(s)
  }

  ghost predicate IsKey(s: string) {
    s != "" && KeyChars(s)
  }

  /** The text of a definition. */
  function DefinitionText(key: string, value: string): string {
    key + " = \"\"\"" + value + "\"\"\""
  }

  lemma {:induction false} NameSound(s: string)
    ensures SoundName(s) <==> Plain(s)
  {
    if s == "" {
    } else {
      var rest, c := s[..|s| - 1], s[|s| - 1];
      assert s == rest + [c];
      NameSound(rest);
      NameSnoc(rest, c);
      NameQuotesSnoc(rest, c);
      TripleAtEnd(s);
    }
  }

  /** Plain text behind a part of a value that does not end in a quote. */
  ghost predicate Behind(parts: seq<Part>, s: string, macros: Macros) {
    var all := parts + Chars(s);
    && SoundValue(all) && PartQuotes(all) == NameQuotes(s)
    && ValueText(all) == ValueText(parts) + s && Expand(all, macros) == Expand(parts, macros) + s
  }

  lemma {:induction false} CharsBehind(parts: seq<Part>, s: string, macros: Macros)
    requires SoundValue(parts) && PartQuotes(parts) == 0 && Plain(s)
    ensures Behind(parts, s, macros)
  {
    if s == "" {
      assert parts + Chars("") == parts;
      assert ValueText(parts) + "" == ValueText(parts) && Expand(parts, macros) + "" == Expand(parts, macros);
    } else {
      var rest, c := s[..|s| - 1], s[|s| - 1];
      assert s == rest + [c];
      PlainStart(s);
      CharsBehind(parts, rest, macros);
      OneMoreBehind(parts, rest, c, macros);
    }
  }

  lemma PlainStart(s: string)
    requires s != "" && Plain(s)
    ensures Plain(s[..|s| - 1]) && s[|s| - 1] != '%' && NameQuotes(s) <= 2
  {
    TripleAtEnd(s);
  }

  lemma OneMoreBehind(parts: seq<Part>, s: string, c: char, macros: Macros)
    requires Behind(parts, s, macros) && c != '%' && NameQuotes(s + [c]) <= 2
    ensures Behind(parts, s + [c], macros)
  {
    var all := parts + Chars(s);
    SoundBehind(all, s, c);
    TextGrowsBy(all, c, ValueText(parts), Expand(parts, macros), s, macros);
    CharsSnoc(parts, s, c);
    StandsBehind(parts, s + [c], all + [Text(c)], macros);
  }

  lemma CharsSnoc(parts: seq<Part>, s: string, c: char)
    ensures parts + Chars(s + [c]) == parts + Chars(s) + [Text(c)]
  {
    assert (s + [c])[..|s|] == s;
  }

  lemma StandsBehind(parts: seq<Part>, s: string, all: seq<Part>, macros: Macros)
    requires all == parts + Chars(s) && SoundValue(all) && PartQuotes(all) == NameQuotes(s)
    requires ValueText(all) == ValueText(parts) + s && Expand(all, macros) == Expand(parts, macros) + s
    ensures Behind(parts, s, macros)
  {
  }

  lemma SoundBehind(all: seq<Part>, s: string, c: char)
    requires SoundValue(all) && PartQuotes(all) == NameQuotes(s) && c != '%' && NameQuotes(s + [c]) <= 2
    ensures SoundValue(all + [Text(c)]) && PartQuotes(all + [Text(c)]) == NameQuotes(s + [c])
  {
    NameQuotesSnoc(s, c);
    SoundSnoc(all, Text(c));
    QuotesSnoc(all, Text(c));
  }

  lemma TextGrowsBy(all: seq<Part>, c: char, written: string, meant: string, s: string, macros: Macros)
    requires ValueText(all) == written + s && Expand(all, macros) == meant + s
    ensures ValueText(all + [Text(c)]) == written + (s + [c]) && Expand(all + [Text(c)], macros) == meant + (s + [c])
  {
    ValueSnoc(all, Text(c));
    ExpandSnoc(all, Text(c), macros);
    Associate(written, s, [c]);
    Associate(meant, s, [c]);
  }

  /** A value with one name in it. */
  function WithName(before: string, name: string, after: string): seq<Part> {
    Chars(before) + [Ref(name)] + Chars(after)
  }

  lemma WithNameMeans(before: string, name: string, after: string, macros: Macros)
    requires Plain(before) && IsName(name) && Plain(after)
    ensures var value := WithName(before, name, after);
            && SoundValue(value) && ValueText(value) == before + "%" + name + "%" + after
            && Expand(value, macros) == if name in macros then before + macros[name] + after
                                        else before + "%" + name + "%" + after
  {
    HeadMeans(before, name, macros);
    CharsBehind(Chars(before) + [Ref(name)], after, macros);
  }

  lemma HeadMeans(before: string, name: string, macros: Macros)
    requires Plain(before) && IsName(name)
    ensures var head := Chars(before) + [Ref(name)];
            && SoundValue(head) && PartQuotes(head) == 0 && ValueText(head) == before + "%" + name + "%"
            && Expand(head, macros) == if name in macros then before + macros[name] else before + "%" + name + "%"
  {
    CharsSound(before);
    CharsText(before);
    CharsExpand(before, macros);
    NameSound(name);
    SoundSnoc(Chars(before), Ref(name));
    QuotesSnoc(Chars(before), Ref(name));
    ValueSnoc(Chars(before), Ref(name));
    ExpandSnoc(Chars(before), Ref(name), macros);
    assert before + ("%" + name + "%") == before + "%" + name + "%";
  }

  /** One more definition behind a document. */
  lemma DefinitionBehind(docs: seq<Def>, lead: seq<Lead>, text: string, key: string, value: seq<Part>)
    requires WellFormed(docs) && text == LeadEnd(DocText(docs), EMPTY.(lead := lead)) && IsKey(key)
    requires SoundLead(lead) && Follows(docs, EMPTY.(lead := lead)) && SoundValue(value)
    ensures Run(INITIAL, text + DefinitionText(key, ValueText(value)))
         == Parsed(Meaning(docs)[key := Expand(value, Meaning(docs))])
  {
    var d := Def(lead, key, " ", " ", value, "");
    FormSnoc(docs, d);
    MeaningSnoc(docs, d);
    assert DocText(docs + [d]) == text + DefinitionText(key, ValueText(value)) by {
      DocSnoc(docs, d);
      assert ValueEnd(DocText(docs), d) == text + key + " " + "=" + " " + "\"\"\"" + ValueText(value);
      DefinitionStands(text, key, ValueText(value));
    }
    Accepts(docs + [d]);
  }

  lemma DefinitionStands(text: string, key: string, value: string)
    ensures text + key + " " + "=" + " " + "\"\"\"" + value + "\"\"\"" + "" == text + DefinitionText(key, value)
  {
  }

  /** A text that has been parsed and a line break behind it. */
  lemma NextLine(text: string, macros: Macros) returns (docs: seq<Def>, lead: seq<Lead>)
    requires Run(INITIAL, text) == Parsed(macros)
    ensures WellFormed(docs) && Meaning(docs) == macros && SoundLead(lead)
    ensures LeadEnd(DocText(docs), EMPTY.(lead := lead)) == text + "\n"
    ensures docs != [] ==> lead == []
  {
    var read := AcceptsOnly(text);
    Accepts(read);
    docs, lead := LineBehind(read);
  }

  lemma LineBehind(read: seq<Def>) returns (docs: seq<Def>, lead: seq<Lead>)
    requires WellFormed(read)
    ensures WellFormed(docs) && Meaning(docs) == Meaning(read) && SoundLead(lead)
    ensures LeadEnd(DocText(docs), EMPTY.(lead := lead)) == DocText(read) + "\n"
    ensures docs != [] ==> lead == []
  {
    if read == [] {
      docs, lead := [], [Space('\n')];
      FirstBreak();
    } else {
      var init, last := read[..|read| - 1], read[|read| - 1];
      assert read == init + [last];
      docs, lead := init + [last.(tail := last.tail + ['\n'])], [];
      LongerTail(init, last);
      NoLead(DocText(docs));
    }
  }

  lemma FirstBreak()
    ensures LeadEnd(DocText([]), EMPTY.(lead := [Space('\n')])) == DocText([]) + "\n"
  {
    LeadSnoc([], Space('\n'));
    assert [] + [Space('\n')] == [Space('\n')];
  }

  lemma NoLead(text: string)
    ensures LeadEnd(text, EMPTY.(lead := [])) == text
  {
    assert text + "" == text;
  }

  lemma LongerTail(init: seq<Def>, last: Def)
    requires WellFormed(init + [last])
    ensures var docs := init + [last.(tail := last.tail + ['\n'])];
            WellFormed(docs) && Meaning(docs) == Meaning(init + [last])
            && DocText(docs) == DocText(init + [last]) + "\n"
  {
    var longer := last.(tail := last.tail + ['\n']);
    FormSnoc(init, last);
    LongerTailSound(last, '\n');
    FormSnoc(init, longer);
    MeaningSnoc(init, last);
    MeaningSnoc(init, longer);
    DocTail(init, last, '\n');
  }

  lemma ValueTaken(text: string, macros: Macros, key: string, value: seq<Part>, written: string, meant: string)
    requires Run(INITIAL, text) == Parsed(macros) && IsKey(key)
    requires SoundValue(value) && ValueText(value) == written && Expand(value, macros) == meant
    ensures Run(INITIAL, text + "\n" + DefinitionText(key, written)) == Parsed(macros[key := meant])
  {
    var docs, lead := NextLine(text, macros);
    DefinitionBehind(docs, lead, text + "\n", key, value);
  }

  /** A definition on a line of its own behind any text that is parsed: a name that was defined becomes its value,
      whatever that is, and one that was not stays as it is. */
  lemma NameReplaced(text: string, macros: Macros, key: string, before: string, name: string, after: string)
    requires Run(INITIAL, text) == Parsed(macros) && IsKey(key) && Plain(before) && IsName(name) && Plain(after)
    ensures Run(INITIAL, text + "\n" + DefinitionText(key, before + "%" + name + "%" + after))
         == Parsed(macros[key := if name in macros then before + macros[name] + after
                                 else before + "%" + name + "%" + after])
  {
    var meant := if name in macros then before + macros[name] + after else before + "%" + name + "%" + after;
    WithNameMeans(before, name, after, macros);
    ValueTaken(text, macros, key, WithName(before, name, after), before + "%" + name + "%" + after, meant);
  }

  /** A value without names is taken as it is; a comment in front of a definition means nothing. */
  lemma PlainTaken(text: string, macros: Macros, key: string, value: string)
    requires Run(INITIAL, text) == Parsed(macros) && IsKey(key) && Plain(value)
    ensures Run(INITIAL, text + "\n" + DefinitionText(key, value)) == Parsed(macros[key := value])
  {
    CharsSound(value);
    CharsText(value);
    CharsExpand(value, macros);
    ValueTaken(text, macros, key, Chars(value), value, value);
  }

  lemma CommentSkipped(text: string, macros: Macros, comment: string, key: string, value: string)
    requires Run(INITIAL, text) == Parsed(macros) && '\n' !in comment && IsKey(key) && Plain(value)
    ensures Run(INITIAL, text + "\n" + "#" + comment + "\n" + DefinitionText(key, value))
         == Parsed(macros[key := value])
  {
    var docs, lead := NextLine(text, macros);
    CharsSound(value);
    CharsText(value);
    CharsExpand(value, macros);
    LeadSnoc(lead, Comment(comment));
    CommentStands(DocText(docs), LeadText(lead), text, comment);
    DefinitionBehind(docs, lead + [Comment(comment)], text + "\n" + "#" + comment + "\n", key, Chars(value));
  }

  lemma CommentStands(doc: string, lead: string, text: string, comment: string)
    requires doc + lead == text + "\n"
    ensures doc + (lead + ("#" + comment + "\n")) == text + "\n" + "#" + comment + "\n"
  {
    assert doc + (lead + ("#" + comment + "\n")) == doc + lead + ("#" + comment + "\n");
  }

  /** What is put in for a name is not looked at again: b becomes "%n%" although n is defined by then. */
  lemma InsertedStays(text: string, macros: Macros, a: string, n: string, x: string, b: string)
    requires Run(INITIAL, text) == Parsed(macros) && n !in macros
    requires IsKey(a) && IsKey(n) && IsKey(b) && a != n && Plain(x)
    ensures Run(INITIAL, text + "\n" + DefinitionText(a, "%" + n + "%") + "\n" + DefinitionText(n, x)
                         + "\n" + DefinitionText(b, "%" + a + "%"))
         == Parsed(macros[a := "%" + n + "%"][n := x][b := "%" + n + "%"])
  {
    KeyIsName(a);
    KeyIsName(n);
    var first, defined := text + "\n" + DefinitionText(a, "%" + n + "%"), macros[a := "%" + n + "%"];
    NameAlone(text, macros, a, n);
    PlainTaken(first, defined, n, x);
    NameAlone(first + "\n" + DefinitionText(n, x), defined[n := x], b, a);
  }

  lemma KeyIsName(key: string)
    requires IsKey(key)
    ensures IsName(key)
  {
    forall i ensures !TripleAt(key, i) {
      assert 0 <= i < |key| ==> IsKeyChar(key[i]);
    }
  }

  lemma NameAlone(text: string, macros: Macros, key: string, name: string)
    requires Run(INITIAL, text) == Parsed(macros) && IsKey(key) && IsName(name)
    ensures Run(INITIAL, text + "\n" + DefinitionText(key, "%" + name + "%"))
         == Parsed(macros[key := if name in macros then macros[name] else "%" + name + "%"])
  {
    var meant := if name in macros then macros[name] else "%" + name + "%";
    WithNameMeans("", name, "", macros);
    assert "" + "%" + name + "%" + "" == "%" + name + "%";
    assert name in macros ==> "" + macros[name] + "" == macros[name];
    ValueTaken(text, macros, key, WithName("", name, ""), "%" + name + "%", meant);
  }

  lemma AcceptsEmpty()
    ensures Run(INITIAL, "") == Parsed(map[])
  {
    Accepts([]);
  }

  /** The same behind printed definitions, as they are read from a file. */
  lemma NameReplacedInFile(defs: seq<(string, string)>, key: string, before: string, name: string, after: string)
    requires Printable(defs) && NulFree(defs) && IsKey(key) && Plain(before) && IsName(name) && Plain(after)
    requires NUL !in before && NUL !in name && NUL !in after
    ensures Run(INITIAL, CString(Print(defs) + DefinitionText(key, before + "%" + name + "%" + after)))
         == Parsed(Table(defs)[key := if name in Table(defs) then before + Table(defs)[name] + after
                                      else before + "%" + name + "%" + after])
  {
    var macros := Table(defs);
    var meant := if name in macros then before + macros[name] + after else before + "%" + name + "%" + after;
    WithNameMeans(before, name, after, macros);
    ValueInFile(defs, key, WithName(before, name, after), before + "%" + name + "%" + after, meant);
  }

  lemma ValueInFile(defs: seq<(string, string)>, key: string, value: seq<Part>, written: string, meant: string)
    requires Printable(defs) && NulFree(defs) && IsKey(key) && NUL !in written
    requires SoundValue(value) && ValueText(value) == written && Expand(value, Table(defs)) == meant
    ensures Run(INITIAL, CString(Print(defs) + DefinitionText(key, written))) == Parsed(Table(defs)[key := meant])
  {
    NulFreeText(defs, DefinitionText(key, written));
    PrintedDocument(defs);
    assert Print(defs) + "" == Print(defs);
    DefinitionBehind(Documents(defs), [], Print(defs), key, value);
  }

  lemma NulFreeText(defs: seq<(string, string)>, text: string)
    requires Printable(defs) && NulFree(defs) && NUL !in text
    ensures CString(Print(defs) + text) == Print(defs) + text
  {
    PrintNulFree(defs);
    CStringPrefix(Print(defs) + text, "");
    assert Print(defs) + text + "" == Print(defs) + text;
  }

  /** The last definition of a key counts, */
  lemma {:induction false} LastCounts(defs: seq<(string, string)>, i: nat)
    requires i < |defs| && forall j :: i < j < |defs| ==> defs[j].0 != defs[i].0
    ensures defs[i].0 in Table(defs) && Table(defs)[defs[i].0] == defs[i].1
    decreases |defs|
  {
    if i == |defs| - 1 {
    } else {
      LastCounts(defs[..|defs| - 1], i);
    }
  }

  /** and there are no others. */
  lemma {:induction false} NoOthers(defs: seq<(string, string)>, key: string)
    ensures key in Table(defs) <==> exists i :: 0 <= i < |defs| && defs[i].0 == key
  {
    if defs == [] {
    } else {
      var n := |defs| - 1;
      NoOthers(defs[..n], key);
      if key in Table(defs[..n]) {
        var i :| 0 <= i < n && defs[..n][i].0 == key;
        assert defs[i].0 == key;
      }
      if exists i :: 0 <= i < |defs| && defs[i].0 == key {
        var i :| 0 <= i < |defs| && defs[i].0 == key;
        assert i < n ==> defs[..n][i].0 == key;
      }
    }
  }
}
