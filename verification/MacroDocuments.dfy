/** The language of macro files: definitions of a key by a quoted value, with white space and comments between
    them. The texts the parser accepts are exactly those of well-formed documents. */
module MacroDocuments {
  import opened MacroTables
  import opened MacroRuns
  import opened Wrappers

  /** White space and comments before a key. */
  datatype Lead = Space(c: char) | Comment(text: string)

  /** A definition: what stands before the key, the key, the white space around the equals sign, the value, and the
      white space behind the closing quotes. */
  datatype Def = Def(lead: seq<Lead>, key: string, gap: string, indent: string, value: seq<Part>, tail: string)

  const EMPTY: Def := Def([], "", "", "", [], "")

  function LeadText(lead: seq<Lead>): string {
    if lead == [] then "" else
      LeadText(lead[..|lead| - 1]) + match lead[|lead| - 1] case Space(c) => [c] case Comment(t) => "#" + t + "\n"
  }

  /** The text of a document. */
  function DocText(docs: seq<Def>): string {
    if docs == [] then "" else
      var d := docs[|docs| - 1];
      ValueEnd(DocText(docs[..|docs| - 1]), d) + "\"\"\"" + d.tail
  }

  /** The text up to each stage of a definition, behind a text. */
  function LeadEnd(before: string, d: Def): string {
    before + LeadText(d.lead)
  }

  function KeyEnd(before: string, d: Def): string {
    LeadEnd(before, d) + d.key
  }

  function GapEnd(before: string, d: Def): string {
    KeyEnd(before, d) + d.gap
  }

  function IndentEnd(before: string, d: Def): string {
    GapEnd(before, d) + "=" + d.indent
  }

  function ValueEnd(before: string, d: Def): string {
    IndentEnd(before, d) + "\"\"\"" + ValueText(d.value)
  }

  /** What a document defines: a later definition of a key replaces an earlier one, and names in a value stand for
      what was defined before. */
  function Meaning(docs: seq<Def>): Macros {
    if docs == [] then map[] else
      var d, before := docs[|docs| - 1], Meaning(docs[..|docs| - 1]);
      before[d.key := Expand(d.value, before)]
  }

  /** The number of quotes at the end. */
  function PartQuotes(parts: seq<Part>): nat {
    if parts == [] || parts[|parts| - 1] != QUOTE then 0 else 1 + PartQuotes(parts[..|parts| - 1])
  }

  function NameQuotes(name: string): nat {
    if name == "" || name[|name| - 1] != '"' then 0 else 1 + NameQuotes(name[..|name| - 1])
  }

  /** A name without percent signs and without three quotes in a row. */
  predicate SoundName(name: string) {
    name == "" || (SoundName(name[..|name| - 1]) && name[|name| - 1] != '%' && NameQuotes(name) <= 2)
  }

  /** A value: plain characters that are no percent signs, names that are not empty, and never three quotes in a row. */
  predicate SoundValue(parts: seq<Part>) {
    parts == [] || (SoundValue(parts[..|parts| - 1]) && PartQuotes(parts) <= 2 && SoundPart(parts[|parts| - 1]))
  }

  predicate Spaces(s: string) {
    forall i :: 0 <= i < |s| ==> IsSpace(s[i])
  }

  predicate KeyChars(s: string) {
    forall i :: 0 <= i < |s| ==> IsKeyChar(s[i])
  }

  predicate SoundLead(lead: seq<Lead>) {
    forall i :: 0 <= i < |lead| ==> match lead[i] case Space(c) => IsSpace(c) case Comment(t) => '\n' !in t
  }

  predicate SoundDef(d: Def) {
    SoundLead(d.lead) && d.key != "" && KeyChars(d.key) && Spaces(d.gap) && Spaces(d.indent) && SoundValue(d.value)
    && Spaces(d.tail)
  }

  /** White space between two definitions belongs to the first. */
  predicate Follows(docs: seq<Def>, d: Def) {
    docs == [] || d.lead == [] || d.lead[0].Comment?
  }

  predicate WellFormed(docs: seq<Def>) {
    docs == [] || (WellFormed(docs[..|docs| - 1]) && SoundDef(docs[|docs| - 1])
                   && Follows(docs[..|docs| - 1], docs[|docs| - 1]))
  }

  /** How far the definition that is being read has got. */
  datatype Stage = Between | InLead | InComment(text: string) | InKey | InGap | InIndent(quotes: nat) | InText
                 | InName(name: string) | Closing

  /** A document read in part: whole definitions and one in progress. */
  datatype Partial = Partial(docs: seq<Def>, d: Def, stage: Stage)

  function TextOf(x: Partial): string {
    var before := DocText(x.docs);
    match x.stage
    case Between => before
    case InLead => LeadEnd(before, x.d)
    case InComment(t) => LeadEnd(before, x.d) + "#" + t
    case InKey => KeyEnd(before, x.d)
    case InGap => GapEnd(before, x.d)
    case InIndent(n) => IndentEnd(before, x.d) + Repeat('"', n)
    case InText => ValueEnd(before, x.d)
    case InName(name) => ValueEnd(before, x.d) + "%" + name
    case Closing => ValueEnd(before, x.d) + "\"\"\""
  }

  function Repeat(c: char, n: nat): string {
    seq(n, _ => c)
  }

  /** What has not been read is empty, and what has been read is sound. */
  ghost predicate Good(x: Partial) {
    var d := x.d;
    && WellFormed(x.docs) && SoundLead(d.lead) && Follows(x.docs, d) && KeyChars(d.key) && Spaces(d.gap)
    && Spaces(d.indent) && SoundValue(d.value) && d.tail == ""
    && (x.stage.Between? ==> d == EMPTY && (x.docs == [] || x.docs[|x.docs| - 1].tail != ""))
    && (x.stage.InLead? ==> d.lead != [])
    && (x.stage.InLead? || x.stage.InComment? ==> d == EMPTY.(lead := d.lead))
    && (x.stage.InComment? ==> '\n' !in x.stage.text)
    && (x.stage.InKey? ==> d == EMPTY.(lead := d.lead, key := d.key))
    && (x.stage.InGap? ==> d == EMPTY.(lead := d.lead, key := d.key, gap := d.gap) && d.gap != "")
    && (x.stage.InIndent? ==> d.value == [] && x.stage.quotes <= 2)
    && (x.stage.InName? ==> SoundName(x.stage.name))
    && (d.key == "" <==> x.stage.Between? || x.stage.InLead? || x.stage.InComment?)
  }

  function LastKey(docs: seq<Def>): string {
    if docs == [] then "" else docs[|docs| - 1].key
  }

  /** The parser at position p when it has read a document in part. */
  function ConfigOf(x: Partial, p: nat): Config {
    var y := Config(1, p, "", x.d.key, x.d.value, "", Meaning(x.docs));
    match x.stage
    case Between => y.(cs := if x.docs == [] then 16 else 18, lastKey := LastKey(x.docs))
    case InLead => y.(lastKey := LastKey(x.docs))
    case InComment(_) => y.(cs := 2, lastKey := LastKey(x.docs))
    case InKey => y.(cs := 3, buf := x.d.key, lastKey := LastKey(x.docs))
    case InGap => y.(cs := 4)
    case InIndent(n) => y.(cs := 5 + n)
    case InText => y.(cs := if x.d.value == [] then 8 else 9 + PartQuotes(x.d.value))
    case InName(name) => y.(cs := if name == "" then 12 else 13 + NameQuotes(name), name := name)
    case Closing =>
      y.(cs := if PartQuotes(x.d.value) == 0 then 17 else 18 + PartQuotes(x.d.value),
         parts := x.d.value + [QUOTE, QUOTE, QUOTE])
  }

  /** The document read in part when one more character is taken, if there is one. */
  function Extend(x: Partial, c: char): Option<Partial> {
    var d := x.d;
    match x.stage
    case Between =>
      if IsSpace(c) && x.docs != [] then
        var k := |x.docs| - 1;
        Some(x.(docs := x.docs[..k] + [x.docs[k].(tail := x.docs[k].tail + [c])]))
      else StartDef(x, c)
    case InLead => StartDef(x, c)
    case InComment(t) =>
      if c == '\n' then Some(x.(d := d.(lead := d.lead + [Comment(t)]), stage := InLead))
      else Some(x.(stage := InComment(t + [c])))
    case InKey =>
      if IsKeyChar(c) then Some(x.(d := d.(key := d.key + [c])))
      else if IsSpace(c) then Some(x.(d := d.(gap := [c]), stage := InGap))
      else if c == '=' then Some(x.(stage := InIndent(0))) else None
    case InGap =>
      if IsSpace(c) then Some(x.(d := d.(gap := d.gap + [c])))
      else if c == '=' then Some(x.(stage := InIndent(0))) else None
    case InIndent(n) =>
      if n == 0 && IsSpace(c) then Some(x.(d := d.(indent := d.indent + [c])))
      else if c != '"' then None else Some(x.(stage := if n == 2 then InText else InIndent(n + 1)))
    case InText =>
      if c == '%' then Some(x.(stage := InName("")))
      else if c == '"' && PartQuotes(d.value) == 2 && 2 <= |d.value| then
        Some(x.(d := d.(value := d.value[..|d.value| - 2]), stage := Closing))
      else Some(x.(d := d.(value := d.value + [Text(c)])))
    case InName(name) =>
      if c == '%' then
        if name == "" then None else Some(x.(d := d.(value := d.value + [Ref(name)]), stage := InText))
      else if c == '"' && NameQuotes(name) == 2 then None else Some(x.(stage := InName(name + [c])))
    case Closing =>
      if c == '"' then
        if PartQuotes(d.value) == 2 then None else Some(x.(d := d.(value := d.value + [QUOTE])))
      else if IsSpace(c) then Some(Partial(x.docs + [d.(tail := [c])], EMPTY, Between))
      else StartDef(Partial(x.docs + [d], EMPTY, Between), c)
  }

  /** White space, a comment, or a key begins. */
  function StartDef(x: Partial, c: char): Option<Partial> {
    if IsSpace(c) then Some(x.(d := x.d.(lead := x.d.lead + [Space(c)]), stage := InLead))
    else if c == '#' then Some(x.(stage := InComment("")))
    else if IsKeyChar(c) then Some(x.(d := x.d.(key := [c]), stage := InKey)) else None
  }

  lemma LeadSnoc(lead: seq<Lead>, l: Lead)
    ensures LeadText(lead + [l]) == LeadText(lead) + match l case Space(c) => [c] case Comment(t) => "#" + t + "\n"
  {
    assert (lead + [l])[..|lead|] == lead;
  }

  lemma QuotesSnoc(parts: seq<Part>, part: Part)
    ensures PartQuotes(parts + [part]) == if part == QUOTE then 1 + PartQuotes(parts) else 0
  {
    assert (parts + [part])[..|parts|] == parts;
  }

  predicate SoundPart(part: Part) {
    match part case Text(c) => c != '%' case Ref(n) => n != "" && SoundName(n)
  }

  lemma SoundSnoc(parts: seq<Part>, part: Part)
    ensures SoundValue(parts + [part]) <==>
              SoundValue(parts) && SoundPart(part) && (part == QUOTE ==> PartQuotes(parts) <= 1)
  {
    assert (parts + [part])[..|parts|] == parts;
    QuotesSnoc(parts, part);
  }

  lemma NameQuotesSnoc(name: string, c: char)
    ensures NameQuotes(name + [c]) == if c == '"' then 1 + NameQuotes(name) else 0
  {
    assert (name + [c])[..|name|] == name;
  }

  lemma NameSnoc(name: string, c: char)
    ensures SoundName(name + [c]) <==> SoundName(name) && c != '%' && (c == '"' ==> NameQuotes(name) <= 1)
  {
    assert (name + [c])[..|name|] == name;
    NameQuotesSnoc(name, c);
  }

  lemma DocSnoc(docs: seq<Def>, d: Def)
    ensures DocText(docs + [d]) == ValueEnd(DocText(docs), d) + "\"\"\"" + d.tail
  {
    assert (docs + [d])[..|docs|] == docs;
  }

  lemma MeaningSnoc(docs: seq<Def>, d: Def)
    ensures Meaning(docs + [d]) == Meaning(docs)[d.key := Expand(d.value, Meaning(docs))]
  {
    assert (docs + [d])[..|docs|] == docs;
  }

  lemma FormSnoc(docs: seq<Def>, d: Def)
    ensures WellFormed(docs + [d]) <==> WellFormed(docs) && SoundDef(d) && Follows(docs, d)
  {
    assert (docs + [d])[..|docs|] == docs;
  }

  lemma SoundQuotes(parts: seq<Part>)
    requires SoundValue(parts)
    ensures PartQuotes(parts) <= 2
  {
  }

  lemma SoundNameQuotes(name: string)
    requires SoundName(name)
    ensures NameQuotes(name) <= 2
  {
  }

  /** One more character is one more character of the text, */
  ghost predicate TextGrows(x: Partial, c: char) {
    Extend(x, c).Some? ==> TextOf(Extend(x, c).value) == TextOf(x) + [c]
  }

  /** what has been read stays sound, */
  ghost predicate StaysGood(x: Partial, c: char) {
    Extend(x, c).Some? ==> Good(Extend(x, c).value)
  }

  /** and the parser does just that, or stops with an error. */
  ghost predicate Parses(x: Partial, c: char, p: nat) {
    if Extend(x, c).Some? then Step(ConfigOf(x, p), c) == ConfigOf(Extend(x, c).value, p + 1)
    else Step(ConfigOf(x, p), c).cs == ERROR
  }

  lemma StartParses(x: Partial, c: char, p: nat)
    requires x.d == EMPTY.(lead := x.d.lead)
    requires x.stage.InLead? || (x.stage.Between? && x.d == EMPTY && (x.docs == [] || !IsSpace(c)))
    ensures Parses(x, c, p)
  {
    OutsideStep(ConfigOf(x, p), c);
  }

  lemma CommentParses(x: Partial, c: char, p: nat)
    requires x.stage.InComment?
    ensures Parses(x, c, p)
  {
    HeadStep(ConfigOf(x, p), c);
  }

  lemma KeyParses(x: Partial, c: char, p: nat)
    requires x.stage.InKey?
    ensures Parses(x, c, p)
  {
    HeadStep(ConfigOf(x, p), c);
  }

  lemma GapParses(x: Partial, c: char, p: nat)
    requires x.stage.InGap?
    ensures Parses(x, c, p)
  {
    HeadStep(ConfigOf(x, p), c);
  }

  lemma IndentParses(x: Partial, c: char, p: nat)
    requires x.stage.InIndent? && x.stage.quotes <= 2 && x.d.value == []
    ensures Parses(x, c, p)
  {
    HeadStep(ConfigOf(x, p), c);
  }

  /** White space behind a definition changes nothing but the position. */
  lemma TailMeans(docs: seq<Def>, d: Def, tail: string, p: nat)
    ensures ConfigOf(Partial(docs + [d.(tail := tail)], EMPTY, Between), p + 1)
         == ConfigOf(Partial(docs + [d], EMPTY, Between), p).(p := p + 1)
  {
    MeaningSnoc(docs, d);
    MeaningSnoc(docs, d.(tail := tail));
  }

  lemma TailParses(x: Partial, c: char, p: nat)
    requires x.stage.Between? && x.docs != [] && x.d == EMPTY && IsSpace(c)
    ensures Parses(x, c, p)
  {
    var k := |x.docs| - 1;
    assert x.docs == x.docs[..k] + [x.docs[k]];
    TailMeans(x.docs[..k], x.docs[k], x.docs[k].tail + [c], p);
    OutsideStep(ConfigOf(x, p), c);
  }

  lemma PercentParses(x: Partial, p: nat)
    requires x.stage.InText? && PartQuotes(x.d.value) <= 2
    ensures Parses(x, '%', p)
  {
    PercentStep(ConfigOf(x, p));
  }

  lemma TextParses(x: Partial, c: char, p: nat)
    requires x.stage.InText? && PartQuotes(x.d.value) <= 2 && c != '%' && !(c == '"' && PartQuotes(x.d.value) == 2)
    ensures Parses(x, c, p)
  {
    QuotesSnoc(x.d.value, Text(c));
    TextStep(ConfigOf(x, p), c);
  }

  lemma ThirdQuoteParses(x: Partial, p: nat)
    requires x.stage.InText? && SoundValue(x.d.value) && PartQuotes(x.d.value) == 2
    ensures Parses(x, '"', p)
  {
    ThirdQuote(x.d.value);
    TextStep(ConfigOf(x, p), '"');
  }

  lemma ThirdQuote(parts: seq<Part>)
    requires SoundValue(parts) && PartQuotes(parts) == 2
    ensures 2 <= |parts| && PartQuotes(parts[..|parts| - 2]) == 0
    ensures parts + [QUOTE] == parts[..|parts| - 2] + [QUOTE, QUOTE, QUOTE]
  {
    TwoQuotes(parts);
    QuotesTogether(parts[..|parts| - 2]);
  }

  lemma QuotesTogether(value: seq<Part>)
    ensures value + [QUOTE, QUOTE] + [QUOTE] == value + [QUOTE, QUOTE, QUOTE]
    ensures value + [QUOTE, QUOTE, QUOTE] + [QUOTE] == value + [QUOTE] + [QUOTE, QUOTE, QUOTE]
  {
  }

  /** A value that ends in two quotes. */
  lemma TwoQuotes(parts: seq<Part>)
    requires SoundValue(parts) && PartQuotes(parts) == 2
    ensures 2 <= |parts| && parts == parts[..|parts| - 2] + [QUOTE, QUOTE]
    ensures SoundValue(parts[..|parts| - 2]) && PartQuotes(parts[..|parts| - 2]) == 0
  {
    var one := parts[..|parts| - 1];
    assert one[..|one| - 1] == parts[..|parts| - 2];
  }

  lemma FirstNameParses(x: Partial, c: char, p: nat)
    requires x.stage == InName("") && c != '%'
    ensures Parses(x, c, p)
  {
    NameQuotesSnoc("", c);
    assert "" + [c] == [c];
    NameStep(ConfigOf(x, p), c);
  }

  lemma NameParses(x: Partial, c: char, p: nat)
    requires x.stage.InName? && x.stage.name != "" && NameQuotes(x.stage.name) <= 2 && c != '%'
    ensures Parses(x, c, p)
  {
    NameQuotesSnoc(x.stage.name, c);
    if !(c == '"' && NameQuotes(x.stage.name) == 2) {
      NameStep(ConfigOf(x, p), c);
    }
  }

  lemma CloseNameParses(x: Partial, p: nat)
    requires x.stage.InName? && NameQuotes(x.stage.name) <= 2
    ensures Parses(x, '%', p)
  {
    QuotesSnoc(x.d.value, Ref(x.stage.name));
    if x.stage.name != "" {
      CloseNameStep(ConfigOf(x, p));
    }
  }

  lemma FourthQuoteParses(x: Partial, p: nat)
    requires x.stage.Closing? && PartQuotes(x.d.value) < 2
    ensures Parses(x, '"', p)
  {
    assert PartQuotes(x.d.value + [QUOTE]) == 1 + PartQuotes(x.d.value) by {
      QuotesSnoc(x.d.value, QUOTE);
    }
    assert Step(ConfigOf(x, p), '"').parts == x.d.value + [QUOTE] + [QUOTE, QUOTE, QUOTE] by {
      QuoteStep(ConfigOf(x, p));
      QuotesTogether(x.d.value);
    }
    QuoteStep(ConfigOf(x, p));
  }

  lemma SixthQuoteFails(x: Partial, p: nat)
    requires x.stage.Closing? && PartQuotes(x.d.value) == 2
    ensures Parses(x, '"', p)
  {
  }

  /** Behind the closing quotes the definition is complete. */
  lemma Settles(x: Partial, p: nat)
    requires x.stage.Closing?
    ensures Settled(ConfigOf(x, p)) == ConfigOf(Partial(x.docs + [x.d], EMPTY, Between), p)
  {
    MeaningSnoc(x.docs, x.d);
    ClosedValue(x.d.value);
    var y, docs := ConfigOf(x, p), x.docs + [x.d];
    assert y == Config(y.cs, p, "", x.d.key, x.d.value + [QUOTE, QUOTE, QUOTE], "", Meaning(x.docs));
    assert ConfigOf(Partial(docs, EMPTY, Between), p) == Config(18, p, "", x.d.key, [], "", Meaning(docs));
  }

  lemma ClosedValue(value: seq<Part>)
    ensures Closed(value + [QUOTE, QUOTE, QUOTE]) == value
  {
  }

  lemma EndParses(x: Partial, c: char, p: nat)
    requires x.stage.Closing? && PartQuotes(x.d.value) <= 2 && c != '"' && !IsSpace(c)
    ensures Parses(x, c, p)
  {
    var closed := Partial(x.docs + [x.d], EMPTY, Between);
    assert Settled(ConfigOf(x, p)) == ConfigOf(closed, p) by {
      Settles(x, p);
    }
    assert Parses(closed, c, p) by {
      StartParses(closed, c, p);
    }
    SettleStep(ConfigOf(x, p), c);
  }

  lemma FirstTailParses(x: Partial, c: char, p: nat)
    requires x.stage.Closing? && PartQuotes(x.d.value) <= 2 && IsSpace(c)
    ensures Parses(x, c, p)
  {
    var closed := Partial(x.docs + [x.d], EMPTY, Between);
    var y, z := ConfigOf(x, p), ConfigOf(closed, p);
    assert Settled(y) == z by {
      Settles(x, p);
    }
    assert Step(y, c) == z.(p := p + 1) by {
      SettleStep(y, c);
      OutsideStep(z, c);
    }
    var next := Partial(x.docs + [x.d.(tail := [c])], EMPTY, Between);
    assert Extend(x, c) == Some(next);
    assert ConfigOf(next, p + 1) == z.(p := p + 1) by {
      TailMeans(x.docs, x.d, [c], p);
    }
  }

  lemma ExtendParses(x: Partial, c: char, p: nat)
    requires Good(x)
    ensures Parses(x, c, p)
  {
    SoundQuotes(x.d.value);
    if x.stage.InName? {
      SoundNameQuotes(x.stage.name);
    }
    match x.stage
    case Between =>
      if IsSpace(c) && x.docs != [] {
        TailParses(x, c, p);
      } else {
        StartParses(x, c, p);
      }
    case InLead => StartParses(x, c, p);
    case InComment(_) => CommentParses(x, c, p);
    case InKey => KeyParses(x, c, p);
    case InGap => GapParses(x, c, p);
    case InIndent(_) => IndentParses(x, c, p);
    case InText =>
      if c == '%' {
        PercentParses(x, p);
      } else if c == '"' && PartQuotes(x.d.value) == 2 {
        ThirdQuoteParses(x, p);
      } else {
        TextParses(x, c, p);
      }
    case InName(name) =>
      if c == '%' {
        CloseNameParses(x, p);
      } else if name == "" {
        FirstNameParses(x, c, p);
      } else {
        NameParses(x, c, p);
      }
    case Closing =>
      if c == '"' {
        if PartQuotes(x.d.value) < 2 {
          FourthQuoteParses(x, p);
        } else {
          SixthQuoteFails(x, p);
        }
      } else if IsSpace(c) {
        FirstTailParses(x, c, p);
      } else {
        EndParses(x, c, p);
      }
  }

  lemma StartGrows(x: Partial, c: char)
    requires x.d == EMPTY.(lead := x.d.lead) && (x.stage.InLead? || (x.stage.Between? && x.d == EMPTY))
    ensures StartDef(x, c).Some? ==> TextOf(StartDef(x, c).value) == TextOf(x) + [c]
  {
    var t, l := DocText(x.docs), LeadText(x.d.lead);
    assert x.stage.Between? ==> l == "" && t + "" == t;
    if IsSpace(c) {
      LeadSnoc(x.d.lead, Space(c));
      Associate(t, l, [c]);
    } else if c == '#' {
      assert t + l + "#" + "" == t + l + [c];
    }
  }

  lemma TailGrows(x: Partial, c: char)
    requires x.stage.Between? && x.docs != [] && IsSpace(c)
    ensures TextGrows(x, c)
  {
    var k := |x.docs| - 1;
    assert x.docs == x.docs[..k] + [x.docs[k]];
    DocTail(x.docs[..k], x.docs[k], c);
  }

  lemma DocTail(docs: seq<Def>, d: Def, c: char)
    ensures DocText(docs + [d.(tail := d.tail + [c])]) == DocText(docs + [d]) + [c]
  {
    var longer := d.(tail := d.tail + [c]);
    var t := ValueEnd(DocText(docs), d) + "\"\"\"";
    assert DocText(docs + [d]) == t + d.tail by {
      DocSnoc(docs, d);
    }
    assert DocText(docs + [longer]) == t + longer.tail by {
      DocSnoc(docs, longer);
    }
    Associate(t, d.tail, [c]);
  }

  lemma CommentGrows(x: Partial, c: char)
    requires x.stage.InComment? && c != '\n'
    ensures TextGrows(x, c)
  {
    Associate(LeadEnd(DocText(x.docs), x.d) + "#", x.stage.text, [c]);
  }

  lemma CommentEnds(x: Partial)
    requires x.stage.InComment?
    ensures TextGrows(x, '\n')
  {
    LeadSnoc(x.d.lead, Comment(x.stage.text));
    CommentText(DocText(x.docs), LeadText(x.d.lead), x.stage.text);
  }

  lemma CommentText(t: string, l: string, text: string)
    ensures t + l + "#" + text + ['\n'] == t + (l + ("#" + text + "\n"))
  {
  }

  lemma HeadGrows(x: Partial, c: char)
    requires Good(x) && (x.stage.InKey? || x.stage.InGap?)
    ensures TextGrows(x, c)
  {
    Associate(LeadEnd(DocText(x.docs), x.d), x.d.key, [c]);
    Associate(KeyEnd(DocText(x.docs), x.d), x.d.gap, [c]);
  }

  lemma IndentGrows(x: Partial, c: char)
    requires x.stage == InIndent(0) && IsSpace(c)
    ensures TextGrows(x, c)
  {
    Associate(GapEnd(DocText(x.docs), x.d) + "=", x.d.indent, [c]);
    EmptyEnd(IndentEnd(DocText(x.docs), x.d));
    EmptyEnd(IndentEnd(DocText(x.docs), x.d.(indent := x.d.indent + [c])));
  }

  lemma EmptyEnd(t: string)
    ensures t + Repeat('"', 0) == t && t + "" == t
  {
  }

  lemma QuotesGrow(x: Partial)
    requires x.stage.InIndent? && x.d.value == []
    ensures TextGrows(x, '"')
  {
    var t, n := IndentEnd(DocText(x.docs), x.d), x.stage.quotes;
    assert Repeat('"', n) + ['"'] == Repeat('"', n + 1);
    Associate(t, Repeat('"', n), ['"']);
    if n == 2 {
      assert Repeat('"', 3) == "\"\"\"";
      EmptyEnd(t + "\"\"\"");
    }
  }

  lemma PercentGrows(x: Partial)
    requires x.stage.InText?
    ensures TextGrows(x, '%')
  {
    EmptyEnd(ValueEnd(DocText(x.docs), x.d) + "%");
  }

  lemma PlainGrows(x: Partial, c: char)
    requires x.stage.InText? && c != '%' && !(c == '"' && PartQuotes(x.d.value) == 2)
    ensures TextGrows(x, c)
  {
    var y := Extend(x, c).value;
    assert y == x.(d := x.d.(value := x.d.value + [Text(c)]));
    var before := IndentEnd(DocText(x.docs), x.d) + "\"\"\"";
    assert TextOf(x) == before + ValueText(x.d.value) && TextOf(y) == before + ValueText(y.d.value);
    ValueSnoc(x.d.value, Text(c));
    Associate(before, ValueText(x.d.value), [c]);
  }

  lemma ThirdQuoteGrows(x: Partial)
    requires x.stage.InText? && SoundValue(x.d.value) && PartQuotes(x.d.value) == 2
    ensures TextGrows(x, '"')
  {
    TwoQuotes(x.d.value);
    var value := x.d.value[..|x.d.value| - 2];
    var before := IndentEnd(DocText(x.docs), x.d) + "\"\"\"";
    assert ValueText(x.d.value) == ValueText(value) + "\"" + "\"" by {
      QuotedText(value);
    }
    assert TextOf(x) == before + ValueText(x.d.value);
    var y := x.(d := x.d.(value := value), stage := Closing);
    assert Extend(x, '"') == Some(y) && TextOf(y) == before + ValueText(value) + "\"\"\"";
    Triple(before, ValueText(value));
  }

  /** Two quotes more at the end of a value. */
  lemma QuotedText(parts: seq<Part>)
    ensures ValueText(parts + [QUOTE, QUOTE]) == ValueText(parts) + "\"" + "\""
  {
    assert parts + [QUOTE, QUOTE] == parts + [QUOTE] + [QUOTE];
    ValueSnoc(parts, QUOTE);
    ValueSnoc(parts + [QUOTE], QUOTE);
  }

  lemma Triple(t: string, v: string)
    ensures t + (v + "\"" + "\"") + "\"" == t + v + "\"\"\""
  {
  }

  lemma WrapName(t: string, v: string, name: string)
    ensures t + v + "%" + name + "%" == t + (v + ("%" + name + "%"))
  {
  }

  lemma NameGrows(x: Partial, c: char)
    requires x.stage.InName? && c != '%'
    ensures TextGrows(x, c)
  {
    Associate(ValueEnd(DocText(x.docs), x.d) + "%", x.stage.name, [c]);
  }

  lemma NameCloses(x: Partial)
    requires x.stage.InName?
    ensures TextGrows(x, '%')
  {
    ValueSnoc(x.d.value, Ref(x.stage.name));
    WrapName(IndentEnd(DocText(x.docs), x.d) + "\"\"\"", ValueText(x.d.value), x.stage.name);
  }

  lemma FourthQuoteGrows(x: Partial)
    requires x.stage.Closing? && PartQuotes(x.d.value) < 2
    ensures TextGrows(x, '"')
  {
    var before, value := IndentEnd(DocText(x.docs), x.d) + "\"\"\"", ValueText(x.d.value);
    assert ValueText(x.d.value + [QUOTE]) == value + "\"" by {
      ValueSnoc(x.d.value, QUOTE);
    }
    Fourth(before, value);
  }

  lemma Fourth(t: string, v: string)
    ensures t + v + "\"\"\"" + "\"" == t + (v + "\"") + "\"\"\""
  {
  }

  /** The closing quotes complete the text of a definition. */
  lemma ClosedText(x: Partial)
    requires x.stage.Closing? && x.d.tail == ""
    ensures TextOf(Partial(x.docs + [x.d], EMPTY, Between)) == TextOf(x)
  {
    DocSnoc(x.docs, x.d);
    EmptyEnd(TextOf(x));
  }

  lemma FirstTailGrows(x: Partial, c: char)
    requires x.stage.Closing? && x.d.tail == "" && IsSpace(c)
    ensures TextGrows(x, c)
  {
    ClosedText(x);
    DocTail(x.docs, x.d, c);
    assert x.d.tail + [c] == [c];
  }

  lemma ClosingGrows(x: Partial, c: char)
    requires x.stage.Closing? && x.d.tail == "" && c != '"' && !IsSpace(c)
    ensures TextGrows(x, c)
  {
    ClosedText(x);
    StartGrows(Partial(x.docs + [x.d], EMPTY, Between), c);
  }

  lemma ExtendGrows(x: Partial, c: char)
    requires Good(x)
    ensures TextGrows(x, c)
  {
    match x.stage
    case Between =>
      if IsSpace(c) && x.docs != [] {
        TailGrows(x, c);
      } else {
        StartGrows(x, c);
      }
    case InLead => StartGrows(x, c);
    case InComment(_) =>
      if c == '\n' {
        CommentEnds(x);
      } else {
        CommentGrows(x, c);
      }
    case InKey => HeadGrows(x, c);
    case InGap => HeadGrows(x, c);
    case InIndent(n) =>
      if n == 0 && IsSpace(c) {
        IndentGrows(x, c);
      } else if c == '"' {
        QuotesGrow(x);
      }
    case InText =>
      if c == '%' {
        PercentGrows(x);
      } else if c == '"' && PartQuotes(x.d.value) == 2 {
        ThirdQuoteGrows(x);
      } else {
        PlainGrows(x, c);
      }
    case InName(_) =>
      if c == '%' {
        NameCloses(x);
      } else {
        NameGrows(x, c);
      }
    case Closing =>
      if c == '"' {
        if PartQuotes(x.d.value) < 2 {
          FourthQuoteGrows(x);
        } else {
          SoundQuotes(x.d.value);
        }
      } else if IsSpace(c) {
        FirstTailGrows(x, c);
      } else {
        ClosingGrows(x, c);
      }
  }

  lemma StartGood(x: Partial, c: char)
    requires WellFormed(x.docs) && x.d == EMPTY.(lead := x.d.lead) && SoundLead(x.d.lead) && Follows(x.docs, x.d)
    requires x.stage.InLead? || (x.stage.Between? && x.d == EMPTY)
    requires IsSpace(c) ==> x.docs == [] || x.d.lead != []
    ensures StartDef(x, c).Some? ==> Good(StartDef(x, c).value)
  {
  }

  lemma TailGood(x: Partial, c: char)
    requires Good(x) && x.stage.Between? && x.docs != [] && IsSpace(c)
    ensures StaysGood(x, c)
  {
    var k := |x.docs| - 1;
    var init, last := x.docs[..k], x.docs[k];
    assert x.docs == init + [last];
    LongerTailGood(init, last, c);
    assert Extend(x, c) == Some(Partial(init + [last.(tail := last.tail + [c])], EMPTY, Between));
  }

  lemma LongerTailGood(init: seq<Def>, last: Def, c: char)
    requires WellFormed(init + [last]) && IsSpace(c)
    ensures Good(Partial(init + [last.(tail := last.tail + [c])], EMPTY, Between))
  {
    FormSnoc(init, last);
    LongerTailSound(last, c);
    FormSnoc(init, last.(tail := last.tail + [c]));
    BetweenGood(init + [last.(tail := last.tail + [c])]);
  }

  lemma LongerTailSound(d: Def, c: char)
    requires SoundDef(d) && IsSpace(c)
    ensures SoundDef(d.(tail := d.tail + [c]))
  {
  }

  lemma BetweenGood(docs: seq<Def>)
    requires WellFormed(docs) && (docs == [] || docs[|docs| - 1].tail != "")
    ensures Good(Partial(docs, EMPTY, Between))
  {
  }

  lemma CommentGood(x: Partial, c: char)
    requires Good(x) && x.stage.InComment?
    ensures StaysGood(x, c)
  {
  }

  lemma KeyGood(x: Partial, c: char)
    requires Good(x) && x.stage.InKey?
    ensures StaysGood(x, c)
  {
  }

  lemma GapGood(x: Partial, c: char)
    requires Good(x) && x.stage.InGap?
    ensures StaysGood(x, c)
  {
  }

  lemma IndentGood(x: Partial, c: char)
    requires Good(x) && x.stage.InIndent?
    ensures StaysGood(x, c)
  {
  }

  lemma PercentGood(x: Partial)
    requires Good(x) && x.stage.InText?
    ensures StaysGood(x, '%')
  {
  }

  lemma PlainGood(x: Partial, c: char)
    requires Good(x) && x.stage.InText? && c != '%' && !(c == '"' && PartQuotes(x.d.value) == 2)
    ensures StaysGood(x, c)
  {
    SoundQuotes(x.d.value);
    SoundSnoc(x.d.value, Text(c));
  }

  lemma ThirdQuoteGood(x: Partial)
    requires Good(x) && x.stage.InText? && PartQuotes(x.d.value) == 2
    ensures StaysGood(x, '"')
  {
    TwoQuotes(x.d.value);
  }

  lemma NameGood(x: Partial, c: char)
    requires Good(x) && x.stage.InName?
    ensures StaysGood(x, c)
  {
    SoundSnoc(x.d.value, Ref(x.stage.name));
    NameSnoc(x.stage.name, c);
    SoundNameQuotes(x.stage.name);
  }

  lemma ClosingGood(x: Partial, c: char)
    requires Good(x) && x.stage.Closing?
    ensures StaysGood(x, c)
  {
    if c == '"' {
      SoundSnoc(x.d.value, QUOTE);
      SoundQuotes(x.d.value);
    } else {
      FormSnoc(x.docs, x.d);
      FormSnoc(x.docs, x.d.(tail := [c]));
      if !IsSpace(c) {
        StartGood(Partial(x.docs + [x.d], EMPTY, Between), c);
      }
    }
  }

  lemma ExtendGood(x: Partial, c: char)
    requires Good(x)
    ensures StaysGood(x, c)
  {
    match x.stage
    case Between =>
      if IsSpace(c) && x.docs != [] {
        TailGood(x, c);
      } else {
        StartGood(x, c);
      }
    case InLead => StartGood(x, c);
    case InComment(_) => CommentGood(x, c);
    case InKey => KeyGood(x, c);
    case InGap => GapGood(x, c);
    case InIndent(_) => IndentGood(x, c);
    case InText =>
      if c == '%' {
        PercentGood(x);
      } else if c == '"' && PartQuotes(x.d.value) == 2 {
        ThirdQuoteGood(x);
      } else {
        PlainGood(x, c);
      }
    case InName(_) => NameGood(x, c);
    case Closing => ClosingGood(x, c);
  }

  /** Where a document stood one character earlier. */
  ghost predicate Shortens(x: Partial, c: char, y: Partial) {
    Good(x) && Extend(x, c) == Some(y)
  }

  /** The document before a comment or a key, behind given leading white space and comments. */
  function Before(docs: seq<Def>, lead: seq<Lead>): Partial {
    if lead != [] then Partial(docs, EMPTY.(lead := lead), InLead)
    else if docs == [] || docs[|docs| - 1].tail != "" then Partial(docs, EMPTY, Between)
    else Partial(docs[..|docs| - 1], docs[|docs| - 1], Closing)
  }

  lemma BeforeGood(docs: seq<Def>, lead: seq<Lead>)
    requires WellFormed(docs) && SoundLead(lead) && Follows(docs, EMPTY.(lead := lead))
    ensures Good(Before(docs, lead))
  {
    if lead == [] && docs != [] && docs[|docs| - 1].tail == "" {
      var init, last := docs[..|docs| - 1], docs[|docs| - 1];
      assert docs == init + [last] && Before(docs, lead) == Partial(init, last, Closing);
      ClosingGoodBefore(init, last);
    }
  }

  lemma BeforeStarts(docs: seq<Def>, lead: seq<Lead>, c: char)
    requires !IsSpace(c) && c != '"'
    ensures Extend(Before(docs, lead), c) == StartDef(Partial(docs, EMPTY.(lead := lead), Between), c)
  {
    if lead == [] && docs != [] && docs[|docs| - 1].tail == "" {
      var init, last := docs[..|docs| - 1], docs[|docs| - 1];
      assert docs == init + [last];
      StartsBehind(init, last, c);
    }
  }

  lemma ClosingGoodBefore(init: seq<Def>, last: Def)
    requires WellFormed(init + [last]) && last.tail == ""
    ensures Good(Partial(init, last, Closing))
  {
    FormSnoc(init, last);
  }

  lemma StartsBehind(init: seq<Def>, last: Def, c: char)
    requires !IsSpace(c) && c != '"'
    ensures Extend(Partial(init, last, Closing), c) == StartDef(Partial(init + [last], EMPTY, Between), c)
  {
  }

  lemma ShortenTail(y: Partial) returns (x: Partial, c: char)
    requires Good(y) && y.stage.Between? && y.docs != []
    ensures Shortens(x, c, y)
  {
    var k := |y.docs| - 1;
    var d := y.docs[k];
    var n := |d.tail| - 1;
    c := d.tail[n];
    assert d.tail == d.tail[..n] + [c] && y.docs == y.docs[..k] + [d];
    if n == 0 {
      x := Partial(y.docs[..k], d.(tail := ""), Closing);
    } else {
      x := y.(docs := y.docs[..k] + [d.(tail := d.tail[..n])]);
      ShorterTail(y.docs[..k], d, n);
    }
  }

  lemma ShorterTail(docs: seq<Def>, d: Def, n: nat)
    requires WellFormed(docs + [d]) && 0 < n <= |d.tail|
    ensures Good(Partial(docs + [d.(tail := d.tail[..n])], EMPTY, Between))
  {
    FormSnoc(docs, d);
    FormSnoc(docs, d.(tail := d.tail[..n]));
  }

  lemma ShortenLead(y: Partial) returns (x: Partial, c: char)
    requires Good(y) && y.stage.InLead?
    ensures Shortens(x, c, y)
  {
    var k := |y.d.lead| - 1;
    var rest, last := y.d.lead[..k], y.d.lead[k];
    assert y.d.lead == rest + [last];
    match last {
      case Comment(t) =>
        x, c := Partial(y.docs, EMPTY.(lead := rest), InComment(t)), '\n';
      case Space(s) =>
        c := s;
        x := if rest == [] then Partial(y.docs, EMPTY, Between) else Partial(y.docs, EMPTY.(lead := rest), InLead);
    }
  }

  lemma ShortenComment(y: Partial) returns (x: Partial, c: char)
    requires Good(y) && y.stage.InComment?
    ensures Shortens(x, c, y)
  {
    var t := y.stage.text;
    if t == "" {
      x, c := Before(y.docs, y.d.lead), '#';
      BeforeGood(y.docs, y.d.lead);
      BeforeStarts(y.docs, y.d.lead, c);
    } else {
      x, c := y.(stage := InComment(t[..|t| - 1])), t[|t| - 1];
      assert t == t[..|t| - 1] + [c];
    }
  }

  lemma ShortenKey(y: Partial) returns (x: Partial, c: char)
    requires Good(y) && y.stage.InKey?
    ensures Shortens(x, c, y)
  {
    var key := y.d.key;
    c := key[|key| - 1];
    assert key == key[..|key| - 1] + [c];
    if |key| == 1 {
      x := Before(y.docs, y.d.lead);
      BeforeGood(y.docs, y.d.lead);
      BeforeStarts(y.docs, y.d.lead, c);
    } else {
      x := y.(d := y.d.(key := key[..|key| - 1]));
    }
  }

  lemma ShortenGap(y: Partial) returns (x: Partial, c: char)
    requires Good(y) && y.stage.InGap?
    ensures Shortens(x, c, y)
  {
    var gap := y.d.gap;
    c := gap[|gap| - 1];
    assert gap == gap[..|gap| - 1] + [c];
    x := y.(d := y.d.(gap := gap[..|gap| - 1]), stage := if |gap| == 1 then InKey else InGap);
  }

  lemma ShortenIndent(y: Partial) returns (x: Partial, c: char)
    requires Good(y) && y.stage.InIndent?
    ensures Shortens(x, c, y)
  {
    var n, indent := y.stage.quotes, y.d.indent;
    if n != 0 {
      x, c := y.(stage := InIndent(n - 1)), '"';
    } else if indent == "" {
      x, c := y.(stage := if y.d.gap == "" then InKey else InGap), '=';
    } else {
      c := indent[|indent| - 1];
      assert indent == indent[..|indent| - 1] + [c];
      x := y.(d := y.d.(indent := indent[..|indent| - 1]));
    }
  }

  lemma ShortenText(y: Partial) returns (x: Partial, c: char)
    requires Good(y) && y.stage.InText?
    ensures Shortens(x, c, y)
  {
    var value := y.d.value;
    if value == [] {
      x, c := y.(stage := InIndent(2)), '"';
    } else {
      var rest, last := value[..|value| - 1], value[|value| - 1];
      assert value == rest + [last];
      match last {
        case Text(t) => x, c := y.(d := y.d.(value := rest)), t;
        case Ref(name) => x, c := y.(d := y.d.(value := rest), stage := InName(name)), '%';
      }
    }
  }

  lemma ShortenName(y: Partial) returns (x: Partial, c: char)
    requires Good(y) && y.stage.InName?
    ensures Shortens(x, c, y)
  {
    var name := y.stage.name;
    if name == "" {
      x, c := y.(stage := InText), '%';
    } else {
      x, c := y.(stage := InName(name[..|name| - 1])), name[|name| - 1];
      assert name == name[..|name| - 1] + [c];
    }
  }

  lemma TwoMoreQuotes(parts: seq<Part>)
    requires SoundValue(parts) && PartQuotes(parts) == 0
    ensures var more := parts + [QUOTE] + [QUOTE];
            SoundValue(more) && PartQuotes(more) == 2 && 2 <= |more| && more[..|more| - 2] == parts
  {
    SoundSnoc(parts, QUOTE);
    SoundSnoc(parts + [QUOTE], QUOTE);
    QuotesSnoc(parts, QUOTE);
    QuotesSnoc(parts + [QUOTE], QUOTE);
  }

  lemma ShortenClosing(y: Partial) returns (x: Partial, c: char)
    requires Good(y) && y.stage.Closing?
    ensures Shortens(x, c, y)
  {
    var value := y.d.value;
    c := '"';
    if PartQuotes(value) == 0 {
      x := y.(d := y.d.(value := value + [QUOTE] + [QUOTE]), stage := InText);
      TwoMoreQuotes(value);
    } else {
      x := y.(d := y.d.(value := value[..|value| - 1]));
      assert value == value[..|value| - 1] + [QUOTE];
    }
  }

  /** Every document read in part but the empty one was reached by a last character. */
  lemma Shorten(y: Partial) returns (x: Partial, c: char)
    requires Good(y) && !(y.stage.Between? && y.docs == [])
    ensures Shortens(x, c, y)
  {
    match y.stage
    case Between => x, c := ShortenTail(y);
    case InLead => x, c := ShortenLead(y);
    case InComment(_) => x, c := ShortenComment(y);
    case InKey => x, c := ShortenKey(y);
    case InGap => x, c := ShortenGap(y);
    case InIndent(_) => x, c := ShortenIndent(y);
    case InText => x, c := ShortenText(y);
    case InName(_) => x, c := ShortenName(y);
    case Closing => x, c := ShortenClosing(y);
  }

  const NOTHING: Partial := Partial([], EMPTY, Between)

  /** Reading the text of a document in part leads the parser to the configuration that stands for it. */
  lemma {:induction false} Reached(y: Partial, rest: string)
    requires Good(y)
    ensures Run(INITIAL, TextOf(y) + rest) == Run(ConfigOf(y, |TextOf(y)|), rest)
    decreases |TextOf(y)|
  {
    if y.stage.Between? && y.docs == [] {
      assert TextOf(y) + rest == rest;
    } else {
      var x, c := Shorten(y);
      ExtendGrows(x, c);
      Reached(x, [c] + rest);
      ReachedBy(x, c, y, rest);
    }
  }

  lemma ReachedBy(x: Partial, c: char, y: Partial, rest: string)
    requires Good(x) && Good(y) && Extend(x, c) == Some(y)
    requires Run(INITIAL, TextOf(x) + ([c] + rest)) == Run(ConfigOf(x, |TextOf(x)|), [c] + rest)
    ensures Run(INITIAL, TextOf(y) + rest) == Run(ConfigOf(y, |TextOf(y)|), rest)
  {
    var before, p := TextOf(x), |TextOf(x)|;
    StepTo(x, c, y, p);
    ReachedNext(before, c, rest, ConfigOf(x, p), ConfigOf(y, p + 1));
  }

  lemma StepTo(x: Partial, c: char, y: Partial, p: nat)
    requires Good(x) && Good(y) && Extend(x, c) == Some(y)
    ensures TextOf(y) == TextOf(x) + [c]
    ensures Step(ConfigOf(x, p), c) == ConfigOf(y, p + 1) && ConfigOf(y, p + 1).cs != ERROR
  {
    ExtendGrows(x, c);
    ExtendParses(x, c, p);
    ConfigReads(y, p + 1);
  }

  lemma ReachedNext(before: string, c: char, rest: string, y: Config, z: Config)
    requires Step(y, c) == z && z.cs != ERROR
    requires Run(INITIAL, before + ([c] + rest)) == Run(y, [c] + rest)
    ensures Run(INITIAL, before + [c] + rest) == Run(z, rest)
  {
    Associate(before, [c], rest);
    OneStep(y, c, rest);
  }

  lemma OneStep(z: Config, c: char, rest: string)
    ensures Run(z, [c] + rest) == if Step(z, c).cs == ERROR then ErrorAt(z.p) else Run(Step(z, c), rest)
  {
    assert ([c] + rest)[1..] == rest;
  }

  lemma ConfigReads(x: Partial, p: nat)
    requires Good(x)
    ensures ConfigOf(x, p).cs != ERROR
  {
  }

  /** What the parser accepts from a document in part on makes it whole. */
  lemma {:induction false} Completes(x: Partial, p: nat, rest: string) returns (y: Partial)
    requires Good(x) && Run(ConfigOf(x, p), rest).Parsed?
    ensures Good(y) && TextOf(y) == TextOf(x) + rest && (y.stage.Between? || y.stage.Closing?)
    decreases |rest|
  {
    if rest == "" {
      y := x;
      FinalStage(x, p);
      assert TextOf(x) + "" == TextOf(x);
    } else {
      var c, more := rest[0], rest[1..];
      assert rest == [c] + more;
      ExtendParses(x, c, p);
      OneStep(ConfigOf(x, p), c, more);
      ExtendGrows(x, c);
      ExtendGood(x, c);
      y := Completes(Extend(x, c).value, p + 1, more);
      Associate(TextOf(x), [c], more);
    }
  }

  lemma FinalStage(x: Partial, p: nat)
    requires Good(x)
    ensures Finish(ConfigOf(x, p)).Parsed? <==> x.stage.Between? || x.stage.Closing?
  {
  }

  /** The end of the text closes a value. */
  lemma FinishClosing(x: Partial, p: nat)
    requires Good(x) && x.stage.Closing?
    ensures Finish(ConfigOf(x, p)) == Parsed(Meaning(x.docs + [x.d]))
  {
    var y := ConfigOf(x, p);
    assert AtEof(y.cs) == [QueryEnd];
    FewActions(y, QueryEnd, QueryEnd, ' ');
    assert Perform(y, QueryEnd, ' ').macros == Settled(y).macros;
    Settles(x, p);
  }

  lemma AcceptsClosing(x: Partial)
    requires Good(x) && x.stage.Closing?
    ensures Run(INITIAL, DocText(x.docs + [x.d])) == Parsed(Meaning(x.docs + [x.d]))
  {
    var text := TextOf(x);
    assert DocText(x.docs + [x.d]) == text by {
      DocSnoc(x.docs, x.d);
      assert text + "" == text;
    }
    Reached(x, "");
    assert text + "" == text;
    FinishClosing(x, |text|);
  }

  lemma AcceptsBetween(docs: seq<Def>)
    requires WellFormed(docs) && (docs == [] || docs[|docs| - 1].tail != "")
    ensures Run(INITIAL, DocText(docs)) == Parsed(Meaning(docs))
  {
    var x := Partial(docs, EMPTY, Between);
    var y := ConfigOf(x, |DocText(docs)|);
    Reached(x, "");
    assert TextOf(x) + "" == DocText(docs);
    assert Run(y, "") == Finish(y) == Parsed(Meaning(docs));
  }

  /** The parser accepts every well-formed document, with its meaning. */
  lemma Accepts(docs: seq<Def>)
    requires WellFormed(docs)
    ensures Run(INITIAL, DocText(docs)) == Parsed(Meaning(docs))
  {
    if docs == [] || docs[|docs| - 1].tail != "" {
      AcceptsBetween(docs);
    } else {
      var init, last := docs[..|docs| - 1], docs[|docs| - 1];
      assert docs == init + [last];
      AcceptsClosing(Partial(init, last, Closing));
    }
  }

  /** A text that stops before a value is closed, or behind a comment or white space that belongs to no value, such
      as a file that ends in a comment, is refused. */
  lemma StopsShort(x: Partial)
    requires Good(x)
    ensures Run(INITIAL, TextOf(x)) == UnexpectedEnd <==> !x.stage.Between? && !x.stage.Closing?
  {
    Reached(x, "");
    assert TextOf(x) + "" == TextOf(x);
    FinalStage(x, |TextOf(x)|);
  }

  /** A document in part that ends behind a value is whole. */
  lemma Whole(y: Partial) returns (docs: seq<Def>)
    requires Good(y) && (y.stage.Between? || y.stage.Closing?)
    ensures WellFormed(docs) && TextOf(y) == DocText(docs)
  {
    if y.stage.Between? {
      docs := y.docs;
    } else {
      docs := y.docs + [y.d];
      DocSnoc(y.docs, y.d);
      FormSnoc(y.docs, y.d);
      assert TextOf(y) + "" == TextOf(y);
    }
  }

  /** The parser accepts nothing else. */
  lemma AcceptsOnly(text: string) returns (docs: seq<Def>)
    requires Run(INITIAL, text).Parsed?
    ensures WellFormed(docs) && text == DocText(docs)
  {
    var y := Completes(NOTHING, 0, text);
    assert "" + text == text;
    docs := Whole(y);
  }

  /** A text parses to some definitions just when it is a well-formed document that means them. */
  lemma ParsedIffDocument(text: string, macros: Macros)
    ensures Run(INITIAL, text) == Parsed(macros) <==>
              exists docs :: WellFormed(docs) && DocText(docs) == text && Meaning(docs) == macros
  {
    if Run(INITIAL, text) == Parsed(macros) {
      var docs := AcceptsOnly(text);
      Accepts(docs);
    }
    forall docs | WellFormed(docs) && DocText(docs) == text && Meaning(docs) == macros
      ensures Run(INITIAL, text) == Parsed(macros)
    {
      Accepts(docs);
    }
  }

  /** A text that some well-formed document starts with. */
  ghost predicate Viable(text: string) {
    exists docs :: WellFormed(docs) && text <= DocText(docs)
  }

  /** A character that brings a document in part nearer to its end, and how far off that is. */
  function Onward(x: Partial): char {
    match x.stage
    case InLead => 'a'
    case InComment(_) => '\n'
    case InKey => '='
    case InGap => '='
    case InName(name) => if name == "" then 'a' else '%'
    case _ => '"'
  }

  function Distance(x: Partial): nat {
    match x.stage
    case InComment(_) => 12
    case InLead => 11
    case InKey => 10
    case InGap => 10
    case InIndent(n) => if n <= 2 then 9 - n else 0
    case InName(name) => if name == "" then 5 else 4
    case InText => if PartQuotes(x.d.value) <= 2 then 3 - PartQuotes(x.d.value) else 0
    case _ => 0
  }

  lemma OnwardNearer(x: Partial)
    requires Good(x) && !x.stage.Between? && !x.stage.Closing?
    ensures Extend(x, Onward(x)).Some? && Distance(Extend(x, Onward(x)).value) < Distance(x)
  {
    SoundQuotes(x.d.value);
    match x.stage {
      case InText => QuotesSnoc(x.d.value, QUOTE);
      case InName(name) =>
        QuotesSnoc(x.d.value, Ref(name));
        assert NameQuotes("") == 0;
      case _ =>
    }
  }

  /** Every document in part can be made whole, */
  lemma {:induction false} MadeWhole(x: Partial) returns (docs: seq<Def>)
    requires Good(x)
    ensures WellFormed(docs) && TextOf(x) <= DocText(docs)
    decreases Distance(x)
  {
    if x.stage.Between? || x.stage.Closing? {
      docs := Whole(x);
    } else {
      var c := Onward(x);
      OnwardNearer(x);
      ExtendGood(x, c);
      ExtendGrows(x, c);
      docs := MadeWhole(Extend(x, c).value);
    }
  }

  /** but not when the next character does not fit. */
  lemma MisfitRun(x: Partial, c: char, more: string)
    requires Good(x) && Extend(x, c).None?
    ensures Run(INITIAL, TextOf(x) + ([c] + more)) == ErrorAt(|TextOf(x)|)
  {
    var p := |TextOf(x)|;
    Reached(x, [c] + more);
    assert Step(ConfigOf(x, p), c).cs == ERROR by {
      ExtendParses(x, c, p);
    }
    StepFails(ConfigOf(x, p), c, more);
    assert ConfigOf(x, p).p == p;
  }

  lemma StepFails(z: Config, c: char, rest: string)
    requires Step(z, c).cs == ERROR
    ensures Run(z, [c] + rest) == ErrorAt(z.p)
  {
    OneStep(z, c, rest);
  }

  lemma DocBehind(text: string, c: char, doc: string) returns (more: string)
    requires text + [c] <= doc
    ensures doc == text + ([c] + more)
  {
    more := doc[|text| + 1..];
  }

  lemma MisfitDoc(x: Partial, c: char, docs: seq<Def>)
    requires Good(x) && Extend(x, c).None? && WellFormed(docs)
    ensures !(TextOf(x) + [c] <= DocText(docs))
  {
    if TextOf(x) + [c] <= DocText(docs) {
      var more := DocBehind(TextOf(x), c, DocText(docs));
      MisfitRun(x, c, more);
      Accepts(docs);
    }
  }

  lemma Misfit(x: Partial, c: char, text: string, longer: string)
    requires Good(x) && Extend(x, c).None? && text == TextOf(x) && longer == text + [c]
    ensures !Viable(longer)
  {
    forall docs | WellFormed(docs) ensures !(longer <= DocText(docs)) {
      MisfitDoc(x, c, docs);
    }
  }

  /** One character that fits. */
  lemma Fits(x: Partial, c: char, p: nat, rest: string)
    requires Good(x) && Extend(x, c).Some?
    ensures Run(ConfigOf(x, p), [c] + rest) == Run(ConfigOf(Extend(x, c).value, p + 1), rest)
    ensures Good(Extend(x, c).value) && TextOf(Extend(x, c).value) == TextOf(x) + [c]
  {
    ExtendParses(x, c, p);
    ExtendGrows(x, c);
    ExtendGood(x, c);
    ConfigReads(Extend(x, c).value, p + 1);
    OneStep(ConfigOf(x, p), c, rest);
  }

  lemma FitsNot(x: Partial, c: char, p: nat, rest: string)
    requires Good(x) && Extend(x, c).None?
    ensures Run(ConfigOf(x, p), [c] + rest) == ErrorAt(p)
  {
    ExtendParses(x, c, p);
    StepFails(ConfigOf(x, p), c, rest);
  }

  /** The parser follows a text up to its end or to a first character that does not fit. */
  ghost predicate Followed(x: Partial, p: nat, rest: string, y: Partial, n: nat) {
    && Good(y) && n <= |rest| && TextOf(y) == TextOf(x) + rest[..n]
    && if n < |rest| then Extend(y, rest[n]).None? && Run(ConfigOf(x, p), rest) == ErrorAt(p + n)
       else !Run(ConfigOf(x, p), rest).ErrorAt?
  }

  lemma FollowedToEnd(x: Partial, p: nat)
    requires Good(x)
    ensures Followed(x, p, "", x, 0)
  {
    assert TextOf(x) + "" == TextOf(x);
    assert Run(ConfigOf(x, p), "") == Finish(ConfigOf(x, p));
  }

  lemma FollowedToMisfit(x: Partial, c: char, p: nat, more: string)
    requires Good(x) && Extend(x, c).None?
    ensures Followed(x, p, [c] + more, x, 0)
  {
    FitsNot(x, c, p, more);
    assert TextOf(x) + ([c] + more)[..0] == TextOf(x);
  }

  lemma FollowedFurther(x: Partial, c: char, p: nat, more: string, y: Partial, n: nat)
    requires Good(x) && Extend(x, c).Some? && Followed(Extend(x, c).value, p + 1, more, y, n)
    ensures Followed(x, p, [c] + more, y, n + 1)
  {
    Fits(x, c, p, more);
    FurtherText(TextOf(x), c, more, n);
    var rest := [c] + more;
    assert n < |more| ==> rest[n + 1] == more[n];
  }

  lemma FurtherText(text: string, c: char, more: string, n: nat)
    requires n <= |more|
    ensures text + [c] + more[..n] == text + ([c] + more)[..n + 1]
  {
    assert ([c] + more)[..n + 1] == [c] + more[..n];
  }

  lemma {:induction false} Follow(x: Partial, p: nat, rest: string) returns (y: Partial, n: nat)
    requires Good(x)
    ensures Followed(x, p, rest, y, n)
    decreases |rest|
  {
    if rest == "" {
      y, n := x, 0;
      FollowedToEnd(x, p);
    } else {
      var c, more := rest[0], rest[1..];
      assert rest == [c] + more;
      if Extend(x, c).None? {
        y, n := x, 0;
        FollowedToMisfit(x, c, p, more);
      } else {
        ExtendGood(x, c);
        y, n := Follow(Extend(x, c).value, p + 1, more);
        FollowedFurther(x, c, p, more, y, n);
        n := n + 1;
      }
    }
  }

  lemma FollowAll(text: string) returns (y: Partial, n: nat)
    ensures Good(y) && n <= |text| && TextOf(y) == text[..n]
    ensures n < |text| ==> Extend(y, text[n]).None? && Run(INITIAL, text) == ErrorAt(n)
    ensures n == |text| ==> !Run(INITIAL, text).ErrorAt?
  {
    y, n := Follow(NOTHING, 0, text);
    assert TextOf(y) == text[..n] by {
      assert TextOf(NOTHING) == "" && "" + text[..n] == text[..n];
    }
  }

  /** What the parser finds in a text: the end of the first part that no well-formed document starts with, or, when
      some document starts with the text, whether the text is one. */
  lemma Found(text: string) returns (n: nat)
    ensures n <= |text| && Viable(text[..n])
    ensures n < |text| ==> Run(INITIAL, text) == ErrorAt(n) && !Viable(text[..n + 1])
    ensures n == |text| ==> !Run(INITIAL, text).ErrorAt?
  {
    var y;
    y, n := FollowAll(text);
    StaysViable(y, text[..n]);
    if n < |text| {
      Take(text, n);
      Misfit(y, text[n], text[..n], text[..n + 1]);
    }
  }

  lemma Take(text: string, n: nat)
    requires n < |text|
    ensures text[..n + 1] == text[..n] + [text[n]]
  {
  }

  lemma StaysViable(x: Partial, text: string)
    requires Good(x) && text == TextOf(x)
    ensures Viable(text)
  {
    var docs := MadeWhole(x);
  }

  lemma ViablePrefix(text: string, a: nat, b: nat)
    requires a <= b <= |text| && Viable(text[..b])
    ensures Viable(text[..a])
  {
    var docs :| WellFormed(docs) && text[..b] <= DocText(docs);
    assert text[..a] == text[..b][..a];
  }

  /** The parser reports an error at a position just when some document starts with what stands before it, and none
      with one character more. */
  lemma ErrorPosition(text: string, p: nat)
    ensures Run(INITIAL, text) == ErrorAt(p) <==> p < |text| && Viable(text[..p]) && !Viable(text[..p + 1])
  {
    var n := Found(text);
    if p < |text| && Viable(text[..p]) && !Viable(text[..p + 1]) {
      if p < n {
        ViablePrefix(text, p + 1, n);
      } else if n < p {
        ViablePrefix(text, n + 1, p);
      }
    }
  }

  /** The text ends too early just when a document starts with it and it is none. */
  lemma EndsEarly(text: string)
    ensures Run(INITIAL, text) == UnexpectedEnd <==>
              Viable(text) && forall docs :: WellFormed(docs) ==> DocText(docs) != text
  {
    var n := Found(text);
    assert n == |text| ==> text[..n] == text;
    if Run(INITIAL, text).Parsed? {
      var docs := AcceptsOnly(text);
    }
    forall docs | WellFormed(docs) && DocText(docs) == text ensures Run(INITIAL, text).Parsed? {
      Accepts(docs);
    }
  }

  /** A value as plain characters. */
  function Chars(s: string): seq<Part> {
    if s == "" then [] else Chars(s[..|s| - 1]) + [Text(s[|s| - 1])]
  }

  /** Three quotes in a row. */
  predicate TripleAt(s: string, i: int) {
    0 <= i < |s| - 2 && s[i] == '"' && s[i + 1] == '"' && s[i + 2] == '"'
  }

  ghost predicate HasTriple(s: string) {
    exists i :: TripleAt(s, i)
  }

  lemma {:induction false} CharsText(s: string)
    ensures ValueText(Chars(s)) == s
  {
    if s == "" {
    } else {
      CharsText(s[..|s| - 1]);
      ValueSnoc(Chars(s[..|s| - 1]), Text(s[|s| - 1]));
    }
  }

  lemma ExpandSnoc(parts: seq<Part>, part: Part, macros: Macros)
    ensures Expand(parts + [part], macros) == Expand(parts, macros) + Rewrite(part, macros)
  {
    assert (parts + [part])[..|parts|] == parts;
  }

  lemma {:induction false} CharsExpand(s: string, macros: Macros)
    ensures Expand(Chars(s), macros) == s
  {
    if s == "" {
    } else {
      CharsExpand(s[..|s| - 1], macros);
      ExpandSnoc(Chars(s[..|s| - 1]), Text(s[|s| - 1]), macros);
    }
  }

  lemma {:induction false} CharsQuotes(s: string)
    ensures PartQuotes(Chars(s)) == NameQuotes(s)
  {
    if s == "" {
    } else {
      CharsQuotes(s[..|s| - 1]);
      QuotesSnoc(Chars(s[..|s| - 1]), Text(s[|s| - 1]));
    }
  }

  /** Plain text is a sound value just when it has no percent sign and no three quotes in a row. */
  lemma {:induction false} CharsSound(s: string)
    ensures SoundValue(Chars(s)) <==> '%' !in s && !HasTriple(s)
  {
    if s == "" {
    } else {
      var rest, c := s[..|s| - 1], s[|s| - 1];
      CharsSound(rest);
      CharsQuotes(rest);
      SoundSnoc(Chars(rest), Text(c));
      NameQuotesSnoc(rest, c);
      assert s == rest + [c];
      TripleAtEnd(s);
    }
  }

  lemma LastQuotes(s: string)
    ensures 3 <= NameQuotes(s) <==> TripleAt(s, |s| - 3)
  {
    if s != "" {
      var one := s[..|s| - 1];
      if one != "" {
        assert one[..|one| - 1] == s[..|s| - 2];
        var two := s[..|s| - 2];
        assert NameQuotes(one) == if one[|one| - 1] == '"' then 1 + NameQuotes(two) else 0;
      }
    }
  }

  lemma TripleAtEnd(s: string)
    requires s != ""
    ensures HasTriple(s) <==> HasTriple(s[..|s| - 1]) || 3 <= NameQuotes(s)
  {
    LastQuotes(s);
    var rest := s[..|s| - 1];
    if HasTriple(rest) {
      var i :| TripleAt(rest, i);
      assert TripleAt(s, i);
    }
    if HasTriple(s) {
      var i :| TripleAt(s, i);
      assert i < |s| - 3 ==> TripleAt(rest, i);
    }
  }

  /** A list of definitions, one to a line. */
  function Print(defs: seq<(string, string)>): string {
    if defs == [] then "" else
      var d := defs[|defs| - 1];
      Print(defs[..|defs| - 1]) + d.0 + " = \"\"\"" + d.1 + "\"\"\"\n"
  }

  /** The last definition of a key wins. */
  function Table(defs: seq<(string, string)>): Macros {
    if defs == [] then map[] else Table(defs[..|defs| - 1])[defs[|defs| - 1].0 := defs[|defs| - 1].1]
  }

  function Documents(defs: seq<(string, string)>): seq<Def> {
    if defs == [] then [] else
      Documents(defs[..|defs| - 1]) + [Def([], defs[|defs| - 1].0, " ", " ", Chars(defs[|defs| - 1].1), "\n")]
  }

  ghost predicate Printable(defs: seq<(string, string)>) {
    forall i :: 0 <= i < |defs| ==>
      defs[i].0 != "" && KeyChars(defs[i].0) && '%' !in defs[i].1 && !HasTriple(defs[i].1)
  }

  lemma {:induction false} PrintedDocument(defs: seq<(string, string)>)
    requires Printable(defs)
    ensures WellFormed(Documents(defs)) && DocText(Documents(defs)) == Print(defs)
    ensures Meaning(Documents(defs)) == Table(defs)
  {
    if defs == [] {
    } else {
      var init, d := defs[..|defs| - 1], defs[|defs| - 1];
      PrintedDocument(init);
      CharsSound(d.1);
      CharsText(d.1);
      CharsExpand(d.1, Meaning(Documents(init)));
      var printed := Def([], d.0, " ", " ", Chars(d.1), "\n");
      DocSnoc(Documents(init), printed);
      MeaningSnoc(Documents(init), printed);
      FormSnoc(Documents(init), printed);
      PrintedLine(Print(init), d.0, d.1);
    }
  }

  lemma PrintedLine(before: string, key: string, value: string)
    ensures before + "" + key + " " + "=" + " " + "\"\"\"" + value + "\"\"\"" + "\n"
         == before + key + " = \"\"\"" + value + "\"\"\"\n"
  {
  }

  lemma {:induction false} CStringPrefix(a: string, b: string)
    requires NUL !in a
    ensures CString(a + b) == a + CString(b)
  {
    if a == "" {
      assert a + b == b && a + CString(b) == CString(b);
    } else {
      CStringPrefix(a[1..], b);
      assert (a + b)[0] == a[0] && (a + b)[1..] == a[1..] + b;
      assert [a[0]] + (a[1..] + CString(b)) == a + CString(b);
    }
  }

  /** The values have no NUL. */
  ghost predicate NulFree(defs: seq<(string, string)>) {
    forall i :: 0 <= i < |defs| ==> NUL !in defs[i].1
  }

  lemma {:induction false} PrintNulFree(defs: seq<(string, string)>)
    requires NulFree(defs) && forall i :: 0 <= i < |defs| ==> KeyChars(defs[i].0)
    ensures NUL !in Print(defs)
  {
    if defs == [] {
    } else {
      PrintNulFree(defs[..|defs| - 1]);
      var d := defs[|defs| - 1];
      assert NUL !in d.0 && NUL !in d.1;
    }
  }

  /** Where a value stands in the printed text. */
  lemma {:induction false} PrintSplit(defs: seq<(string, string)>, k: nat) returns (rest: string)
    requires k < |defs|
    ensures Print(defs) == Print(defs[..k]) + defs[k].0 + " = \"\"\"" + defs[k].1 + rest
    decreases |defs|
  {
    var init, d := defs[..|defs| - 1], defs[|defs| - 1];
    if k == |defs| - 1 {
      rest := "\"\"\"\n";
    } else {
      rest := PrintSplit(init, k);
      assert init[..k] == defs[..k];
      var before, more := Print(defs[..k]) + defs[k].0 + " = \"\"\"" + defs[k].1, d.0 + " = \"\"\"" + d.1 + "\"\"\"\n";
      assert Print(defs) == Print(init) + more by {
        PrintLast(Print(init), d.0, d.1);
      }
      Associate(before, rest, more);
      rest := rest + more;
    }
  }

  lemma PrintLast(before: string, key: string, value: string)
    ensures before + key + " = \"\"\"" + value + "\"\"\"\n" == before + (key + " = \"\"\"" + value + "\"\"\"\n")
  {
  }

  /** The definition that is being read where a value with a NUL breaks off. */
  function BrokenOff(defs: seq<(string, string)>, key: string, value: string): Partial {
    Partial(Documents(defs), Def([], key, " ", " ", Chars(value), ""), InText)
  }

  lemma BrokenGood(defs: seq<(string, string)>, key: string, value: string)
    requires Printable(defs) && key != "" && KeyChars(key) && '%' !in value && !HasTriple(value)
    ensures Good(BrokenOff(defs, key, value))
  {
    PrintedDocument(defs);
    CharsSound(value);
  }

  lemma BrokenText(defs: seq<(string, string)>, key: string, value: string)
    requires Printable(defs)
    ensures TextOf(BrokenOff(defs, key, value)) == Print(defs) + key + " = \"\"\"" + value
  {
    var before := DocText(Documents(defs));
    assert before == Print(defs) by {
      PrintedDocument(defs);
    }
    var x := BrokenOff(defs, key, value);
    assert TextOf(x) == before + "" + key + " " + "=" + " " + "\"\"\"" + value by {
      CharsText(value);
      assert LeadText(x.d.lead) == "";
    }
    PrintedStart(before, key, value);
  }

  /** A text with a NUL ends in front of it. */
  lemma CutText(before: string, value: string, rest: string)
    requires NUL !in before && NUL in value
    ensures CString(before + value + rest) == before + CString(value)
  {
    var read := CString(value);
    CStringCut(value);
    var unread := value[|read|..] + rest;
    assert before + value + rest == before + read + unread by {
      assert value == read + value[|read|..];
    }
    assert CString(unread) == "" by {
      assert unread[0] == NUL;
    }
    CStringPrefix(before + read, unread);
    assert before + read + "" == before + read;
  }

  lemma PrintedStart(before: string, key: string, value: string)
    ensures before + "" + key + " " + "=" + " " + "\"\"\"" + value == before + key + " = \"\"\"" + value
  {
    assert before + "" == before;
  }

  /** A value is read up to its first NUL, and the file ends there. */
  lemma NulBreaksOff(defs: seq<(string, string)>, k: nat)
    requires Printable(defs) && k < |defs| && NUL in defs[k].1 && NulFree(defs[..k])
    ensures Run(INITIAL, CString(Print(defs))) == UnexpectedEnd
  {
    var key, value := defs[k].0, defs[k].1;
    var rest := PrintSplit(defs, k);
    PrintNulFree(defs[..k]);
    CutText(Print(defs[..k]) + key + " = \"\"\"", value, rest);
    ReadSound(value);
    StopsAt(defs[..k], key, CString(value));
  }

  lemma StopsAt(defs: seq<(string, string)>, key: string, value: string)
    requires Printable(defs) && key != "" && KeyChars(key) && '%' !in value && !HasTriple(value)
    ensures Run(INITIAL, Print(defs) + key + " = \"\"\"" + value) == UnexpectedEnd
  {
    BrokenGood(defs, key, value);
    BrokenText(defs, key, value);
    StopsShort(BrokenOff(defs, key, value));
  }

  lemma {:induction false} CStringCut(s: string)
    ensures |CString(s)| <= |s| && CString(s) == s[..|CString(s)|] && NUL !in CString(s)
    ensures |CString(s)| < |s| ==> s[|CString(s)|] == NUL
    ensures NUL in s ==> |CString(s)| < |s|
  {
    if s != "" && s[0] != NUL {
      CStringCut(s[1..]);
      var n := |CString(s[1..])|;
      assert s[..n + 1] == [s[0]] + s[1..][..n];
    }
  }

  lemma ReadSound(value: string)
    requires '%' !in value && !HasTriple(value)
    ensures '%' !in CString(value) && !HasTriple(CString(value))
  {
    CStringCut(value);
    var read := CString(value);
    forall i ensures !TripleAt(read, i) {
      assert TripleAt(read, i) ==> TripleAt(value, i);
    }
  }

  /** Parsing what was printed gives the definitions back when no value has a NUL; otherwise the text ends early. */
  lemma PrintParse(defs: seq<(string, string)>)
    requires Printable(defs)
    ensures NulFree(defs) ==> Run(INITIAL, CString(Print(defs))) == Parsed(Table(defs))
    ensures !NulFree(defs) ==> Run(INITIAL, CString(Print(defs))) == UnexpectedEnd
  {
    if NulFree(defs) {
      PrintedDocument(defs);
      Accepts(Documents(defs));
      PrintNulFree(defs);
      CStringPrefix(Print(defs), "");
      assert Print(defs) + "" == Print(defs) && Print(defs) + CString("") == Print(defs);
    } else {
      var k := FirstNul(defs);
      NulBreaksOff(defs, k);
    }
  }

  lemma FirstNul(defs: seq<(string, string)>) returns (k: nat)
    requires !NulFree(defs)
    ensures k < |defs| && NUL in defs[k].1 && NulFree(defs[..k])
  {
    k := 0;
    while NUL !in defs[k].1
      invariant k < |defs| && NulFree(defs[..k])
      decreases |defs| - k
    {
      assert k + 1 == |defs| ==> NulFree(defs);
      k := k + 1;
    }
  }
}
