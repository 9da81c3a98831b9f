/** The index of a compact corpus: one line per entry, with base-64 offset and size. */
module CompactIndex {
  import opened Base64
  import opened Chunking
  import opened Wrappers

  /** What is written under a name. */
  datatype Record = Record(name: string, data: seq<byte>)
  datatype IndexItem = IndexItem(name: string, offset: nat, size: nat)

  /** All entries one after the other: the content of the data file. */
  function Flat(entries: seq<Record>): seq<byte> {
    if entries == [] then [] else Flat(entries[..|entries| - 1]) + entries[|entries| - 1].data
  }

  /** The item the writer notes for each entry: where it starts and how long it is. */
  function Items(entries: seq<Record>): (items: seq<IndexItem>)
    ensures |items| == |entries|
  {
    if entries == [] then [] else
      var n := |entries| - 1;
      Items(entries[..n]) + [IndexItem(entries[n].name, |Flat(entries[..n])|, |entries[n].data|)]
  }

  function Line(item: IndexItem): string {
    item.name + "\t" + Numeral64(item.offset) + "\t" + Numeral64(item.size)
  }

  /** Lines, each ended. */
  function JoinLines(lines: seq<string>): string {
    if lines == [] then "" else JoinLines(lines[..|lines| - 1]) + lines[|lines| - 1] + ['\n']
  }

  function ItemLines(items: seq<IndexItem>): (lines: seq<string>)
    ensures |lines| == |items| && forall i :: 0 <= i < |lines| ==> lines[i] == Line(items[i])
  {
    seq(|items|, i requires 0 <= i < |items| => Line(items[i]))
  }

  /** The text of the index. */
  function IndexText(items: seq<IndexItem>): string {
    JoinLines(ItemLines(items))
  }

  lemma IndexTextSnoc(items: seq<IndexItem>, item: IndexItem)
    ensures IndexText(items + [item]) == IndexText(items) + Line(item) + ['\n']
  {
    assert ItemLines(items + [item]) == ItemLines(items) + [Line(item)];
    assert (ItemLines(items) + [Line(item)])[..|items|] == ItemLines(items);
  }

  /** The number of characters before the first c. */
  function Until(s: string, c: char): (k: nat)
    ensures k <= |s| && c !in s[..k] && (k < |s| ==> s[k] == c)
  {
    if s == "" || s[0] == c then 0 else
      assert s[..1 + Until(s[1..], c)] == [s[0]] + s[1..][..Until(s[1..], c)];
      1 + Until(s[1..], c)
  }

  /** What std::getline leaves in the stream after it has taken a piece that ends with c. */
  function After(s: string, c: char): (t: string)
    ensures s != "" ==> |t| < |s|
  {
    if Until(s, c) < |s| then s[Until(s, c) + 1..] else ""
  }

  /** The number a field denotes, if it is a numeral of at most 11 characters and 64 bits. */
  function FieldValue(s: string): Option<nat> {
    if |s| <= 11 && InAlphabet(s) && Positional(s) < WORD then Some(Positional(s)) else None
  }

  /** One line of the index, taken apart at tabs. */
  function ParseLine(line: string): Option<IndexItem> {
    var name, fields := line[..Until(line, '\t')], After(line, '\t');
    var offset := FieldValue(fields[..Until(fields, '\t')]);
    var size := FieldValue(After(fields, '\t'));
    if offset.Some? && size.Some? then Some(IndexItem(name, offset.value, size.value)) else None
  }

  /** The lines std::getline takes from a text one after the other. */
  function Lines(text: string): seq<string>
    decreases |text|
  {
    if text == "" then [] else [text[..Until(text, '\n')]] + Lines(After(text, '\n'))
  }

  /** All values; None if any is missing. */
  function AllSome<T>(values: seq<Option<T>>): Option<seq<T>> {
    if values == [] then Some([]) else
      var n := |values| - 1;
      var before := AllSome(values[..n]);
      if before.Some? && values[n].Some? then Some(before.value + [values[n].value]) else None
  }

  /** Each line parsed. */
  function Parsed(lines: seq<string>): (r: seq<Option<IndexItem>>)
    ensures |r| == |lines| && forall i :: 0 <= i < |r| ==> r[i] == ParseLine(lines[i])
  {
    seq(|lines|, i requires 0 <= i < |lines| => ParseLine(lines[i]))
  }

  /** All lines parsed; None if any of them cannot be. */
  function ParseLines(lines: seq<string>): Option<seq<IndexItem>> {
    AllSome(Parsed(lines))
  }

  function ParseIndex(text: string): Option<seq<IndexItem>> {
    ParseLines(Lines(text))
  }

  /** Names that survive in a line. */
  predicate Clean(name: string) {
    '\t' !in name && '\n' !in name
  }

  ghost predicate Writable(items: seq<IndexItem>) {
    forall i :: 0 <= i < |items| ==> Clean(items[i].name) && items[i].offset < WORD && items[i].size < WORD
  }

  lemma {:induction false} UntilFirst(a: string, c: char, b: string)
    requires c !in a
    ensures Until(a + [c] + b, c) == |a| && After(a + [c] + b, c) == b
  {
    var s := a + [c] + b;
    if a == "" {
      assert s[0] == c && s[1..] == b;
    } else {
      UntilFirst(a[1..], c, b);
      assert s[1..] == a[1..] + [c] + b;
      assert s[|a| + 1..] == b;
    }
  }

  lemma {:induction false} UntilNone(a: string, c: char)
    requires c !in a
    ensures Until(a, c) == |a| && After(a, c) == ""
  {
    if a == "" {
    } else {
      UntilNone(a[1..], c);
    }
  }

  lemma FieldRoundTrip(v: nat)
    requires v < WORD
    ensures FieldValue(Numeral64(v)) == Some(v) && '\t' !in Numeral64(v) && '\n' !in Numeral64(v)
  {
    NumeralRoundTrip(v);
    NumeralLength(v);
    var s := Numeral64(v);
    assert forall i :: 0 <= i < |s| ==> Index(s[i]) != XX;
  }

  /** A line is taken apart into what it was made of. */
  lemma LineRoundTrip(item: IndexItem)
    requires Clean(item.name) && item.offset < WORD && item.size < WORD
    ensures ParseLine(Line(item)) == Some(item) && '\n' !in Line(item)
  {
    var o, z := Numeral64(item.offset), Numeral64(item.size);
    FieldRoundTrip(item.offset);
    FieldRoundTrip(item.size);
    var fields := o + "\t" + z;
    assert Line(item) == item.name + ['\t'] + fields;
    UntilFirst(item.name, '\t', fields);
    assert (item.name + ['\t'] + fields)[..|item.name|] == item.name;
    UntilFirst(o, '\t', z);
    assert (o + ['\t'] + z)[..|o|] == o;
  }

  ghost predicate LineEnded(text: string) {
    text == "" || text[|text| - 1] == '\n'
  }

  /** A text whose first line is known. */
  lemma FirstLine(text: string, first: string, rest: string)
    requires '\n' !in first && text == first + ['\n'] + rest
    ensures Lines(text) == [first] + Lines(rest)
  {
    UntilFirst(first, '\n', rest);
    assert text[..|first|] == first;
  }

  /** Every text whose last line is ended has a first line. */
  lemma SplitFirst(text: string) returns (first: string, rest: string)
    requires text != "" && LineEnded(text)
    ensures '\n' !in first && text == first + ['\n'] + rest && LineEnded(rest) && |rest| < |text|
  {
    var k := Until(text, '\n');
    assert k < |text| by {
      assert forall i :: 0 <= i < k ==> text[..k][i] == text[i];
    }
    first, rest := text[..k], text[k + 1..];
    assert text == text[..k] + [text[k]] + text[k + 1..];
  }

  lemma Regroup<T>(text: seq<T>, first: seq<T>, c: T, rest: seq<T>, line: seq<T>)
    requires text == first + [c] + rest
    ensures text + line + [c] == first + [c] + (rest + line + [c])
  {
  }

  /** One more line at the end of a text. */
  lemma {:induction false} LinesSnoc(text: string, line: string)
    requires LineEnded(text) && '\n' !in line
    ensures Lines(text + line + ['\n']) == Lines(text) + [line]
    decreases |text|
  {
    if text == "" {
      assert text + line + ['\n'] == line + ['\n'] + "";
      FirstLine(text + line + ['\n'], line, "");
    } else {
      var first, rest := SplitFirst(text);
      LinesSnoc(rest, line);
      LinesBehind(text, first, rest, line);
    }
  }

  lemma LinesBehind(text: string, first: string, rest: string, line: string)
    requires '\n' !in first && text == first + ['\n'] + rest
    requires Lines(rest + line + ['\n']) == Lines(rest) + [line]
    ensures Lines(text + line + ['\n']) == Lines(text) + [line]
  {
    Regroup(text, first, '\n', rest, line);
    FirstLines(text + line + ['\n'], rest + line + ['\n'], text, rest, first, line);
  }

  lemma FirstLines(whole: string, more: string, text: string, rest: string, first: string, line: string)
    requires '\n' !in first && text == first + ['\n'] + rest && whole == first + ['\n'] + more
    requires Lines(more) == Lines(rest) + [line]
    ensures Lines(whole) == Lines(text) + [line]
  {
    FirstLine(whole, first, more);
    FirstLine(text, first, rest);
  }

  /** Lines without line breaks are told apart again. */
  lemma {:induction false} LinesOfJoined(lines: seq<string>)
    requires forall i :: 0 <= i < |lines| ==> '\n' !in lines[i]
    ensures LineEnded(JoinLines(lines)) && Lines(JoinLines(lines)) == lines
  {
    if lines == [] {
    } else {
      var init, last := lines[..|lines| - 1], lines[|lines| - 1];
      LinesOfJoined(init);
      LinesSnoc(JoinLines(init), last);
      assert lines == init + [last];
    }
  }

  lemma {:induction false} AllSomeOf<T>(values: seq<Option<T>>, items: seq<T>)
    requires |values| == |items| && forall i :: 0 <= i < |items| ==> values[i] == Some(items[i])
    ensures AllSome(values) == Some(items)
  {
    if items == [] {
    } else {
      var n := |items| - 1;
      AllSomeOf(values[..n], items[..n]);
      assert items == items[..n] + [items[n]];
    }
  }

  lemma {:induction false} AllSomeStops<T>(values: seq<Option<T>>, more: seq<Option<T>>)
    requires AllSome(values).None?
    ensures AllSome(values + more).None?
  {
    if more == [] {
      assert values + more == values;
    } else {
      var n := |more| - 1;
      AllSomeStops(values, more[..n]);
      assert (values + more)[..|values| + n] == values + more[..n];
    }
  }

  lemma ParseLinesSnoc(lines: seq<string>, line: string)
    ensures ParseLines(lines + [line])
         == if ParseLines(lines).Some? && ParseLine(line).Some?
            then Some(ParseLines(lines).value + [ParseLine(line).value]) else None
  {
    assert Parsed(lines + [line]) == Parsed(lines) + [ParseLine(line)];
    assert (Parsed(lines) + [ParseLine(line)])[..|lines|] == Parsed(lines);
  }

  /** A line that cannot be parsed makes the whole index unreadable. */
  lemma ParseLinesStops(lines: seq<string>, more: seq<string>)
    requires ParseLines(lines).None?
    ensures ParseLines(lines + more).None?
  {
    AllSomeStops(Parsed(lines), Parsed(more));
    ParsedAppend(lines, more);
  }

  lemma ParsedAppend(lines: seq<string>, more: seq<string>)
    ensures Parsed(lines + more) == Parsed(lines) + Parsed(more)
  {
    var a, b := Parsed(lines + more), Parsed(lines) + Parsed(more);
    forall i | 0 <= i < |a| ensures a[i] == b[i] {
    }
  }

  /** Reading back the index of any items gives these items, in order. */
  lemma IndexRoundTrip(items: seq<IndexItem>)
    requires Writable(items)
    ensures ParseIndex(IndexText(items)) == Some(items)
  {
    forall i | 0 <= i < |items|
      ensures ParseLine(Line(items[i])) == Some(items[i]) && '\n' !in Line(items[i])
    {
      LineRoundTrip(items[i]);
    }
    LinesOfJoined(ItemLines(items));
    AllSomeOf(Parsed(ItemLines(items)), items);
  }

  /** The map the reader builds: a later item of the same name replaces an earlier one. */
  function Named(items: seq<IndexItem>): map<string, IndexItem> {
    if items == [] then map[] else Named(items[..|items| - 1])[items[|items| - 1].name := items[|items| - 1]]
  }

  /** The position of the last entry with a name, or -1. */
  function LastIndex(entries: seq<Record>, name: string): (i: int)
    ensures -1 <= i < |entries|
    ensures 0 <= i ==> entries[i].name == name
    ensures forall j :: i < j < |entries| ==> entries[j].name != name
  {
    if entries == [] then -1
    else if entries[|entries| - 1].name == name then |entries| - 1
    else LastIndex(entries[..|entries| - 1], name)
  }

  /** The map finds the item of the last entry with a name, and nothing under any other name. */
  lemma {:induction false} NamedIsLast(entries: seq<Record>, name: string)
    ensures name in Named(Items(entries)) <==> 0 <= LastIndex(entries, name)
    ensures name in Named(Items(entries)) ==> Named(Items(entries))[name] == Items(entries)[LastIndex(entries, name)]
  {
    if entries == [] {
    } else {
      var n := |entries| - 1;
      NamedIsLast(entries[..n], name);
      assert Items(entries)[..n] == Items(entries[..n]);
    }
  }

  /** An item tells exactly where the data of its entry lies. */
  lemma {:induction false} ItemIsSlice(entries: seq<Record>, i: nat)
    requires i < |entries|
    ensures var item := Items(entries)[i];
            item.name == entries[i].name && item.size == |entries[i].data|
            && item.offset + item.size <= |Flat(entries)|
            && Flat(entries)[item.offset..item.offset + item.size] == entries[i].data
  {
    var n := |entries| - 1;
    if i < n {
      ItemIsSlice(entries[..n], i);
      assert Items(entries)[i] == Items(entries[..n])[i];
    }
  }

  /** The extents of the items tile the data: the first starts at 0, each next one where the last one ended,
      and the last one ends with the data. */
  lemma {:induction false} ItemsTile(entries: seq<Record>, i: nat)
    requires i < |entries|
    ensures Items(entries)[i].offset
         == if i == 0 then 0 else Items(entries)[i - 1].offset + Items(entries)[i - 1].size
    ensures i == |entries| - 1 ==> Items(entries)[i].offset + Items(entries)[i].size == |Flat(entries)|
  {
    var n := |entries| - 1;
    if i < n {
      ItemsTile(entries[..n], i);
      assert Items(entries)[i] == Items(entries[..n])[i];
    } else if 0 < n {
      ItemsTile(entries[..n], n - 1);
      assert Items(entries)[n - 1] == Items(entries[..n])[n - 1];
    }
  }

  /** Every item of a writable store fits the index. */
  lemma {:induction false} ItemsWritable(entries: seq<Record>)
    requires |Flat(entries)| < WORD && forall i :: 0 <= i < |entries| ==> Clean(entries[i].name)
    ensures Writable(Items(entries))
  {
    forall i | 0 <= i < |entries|
      ensures Clean(Items(entries)[i].name) && Items(entries)[i].offset < WORD && Items(entries)[i].size < WORD
    {
      ItemIsSlice(entries, i);
    }
  }
}
