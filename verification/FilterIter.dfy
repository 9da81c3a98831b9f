/** Lazy filters over the entries of a corpus: each runs a query on every entry the iterator below it yields. */
module FilterIters {
  import opened Entries
  import opened Wrappers

  /** The strings a query finds in the document of a name; none if the document cannot be parsed. */
  type Evaluation = (string, string) -> seq<string>

  function Found(name: string, values: seq<string>): seq<Entry> {
    seq(|values|, i requires 0 <= i < |values| => Entry(name, values[i]))
  }

  /** What a filter yields from the entries below it when it has looked at a file last: an entry of that same name is
      passed over, any other is looked at and remembered. */
  function Filtered(eval: Evaluation, query: string, file: string, entries: seq<Entry>): seq<Entry>
    decreases |entries|
  {
    if entries == [] then []
    else if entries[0].name == file then Filtered(eval, query, file, entries[1..])
    else Found(entries[0].name, eval(query, entries[0].name)) + Filtered(eval, query, entries[0].name, entries[1..])
  }

  /** An iterator over given entries. */
  class BaseIter {
    const entries: seq<Entry>
    var pos: nat

    ghost predicate Valid()
      reads this
    {
      pos <= |entries|
    }

    constructor (entries: seq<Entry>)
      ensures Valid() && this.entries == entries && pos == 0
    {
      this.entries, pos := entries, 0;
    }
  }

  /** What a filter draws from: the entries of the corpus or another filter. */
  datatype Iter = Base(base: BaseIter) | Filter(filter: FilterIter)

  ghost function Depth(it: Iter): nat {
    match it case Base(_) => 0 case Filter(f) => f.depth
  }

  ghost function Repr(it: Iter): set<object> {
    match it case Base(b) => {b} case Filter(f) => f.repr
  }

  ghost predicate ValidIter(it: Iter)
    reads Repr(it)
    decreases Depth(it), 1
  {
    match it
    case Base(b) => b.Valid()
    case Filter(f) => f in f.repr && f.Valid()
  }

  /** The entries an iterator has yet to yield. */
  ghost function RemainingOf(it: Iter): seq<Entry>
    requires ValidIter(it)
    reads Repr(it)
    decreases Depth(it), 1
  {
    match it
    case Base(b) => b.entries[b.pos..]
    case Filter(f) => f.Remaining()
  }

  /** Whether next may be called: the next entry has been looked for and is there. */
  ghost predicate Ready(it: Iter)
    requires ValidIter(it)
    reads Repr(it)
  {
    match it
    case Base(b) => b.pos < |b.entries|
    case Filter(f) => f.buffer != []
  }

  method HasNextOf(it: Iter) returns (more: bool)
    requires ValidIter(it)
    modifies Repr(it)
    ensures ValidIter(it) && RemainingOf(it) == old(RemainingOf(it))
    ensures more <==> RemainingOf(it) != []
    ensures more <==> Ready(it)
    decreases Depth(it), 1
  {
    match it {
      case Base(b) => more := b.pos != |b.entries|;
      case Filter(f) => more := f.HasNext();
    }
  }

  method NextOf(it: Iter) returns (e: Entry)
    requires ValidIter(it) && Ready(it)
    modifies Repr(it)
    ensures ValidIter(it) && old(RemainingOf(it)) == [e] + RemainingOf(it)
  {
    match it {
      case Base(b) =>
        e := b.entries[b.pos];
        b.pos := b.pos + 1;
      case Filter(f) =>
        var r := f.Next();
        e := r.value;
    }
  }

  class FilterIter {
    const eval: Evaluation
    const query: string // d_query
    const itr: Iter // d_itr
    var file: string // d_file
    var buffer: seq<string> // d_buffer

    ghost const depth: nat
    ghost const repr: set<object>

    ghost predicate Valid()
      requires this in repr
      reads repr
      decreases depth, 0
    {
      && Depth(itr) < depth && repr == {this} + Repr(itr) && this !in Repr(itr)
      && ValidIter(itr)
    }

    /** The entries it has yet to yield. */
    ghost function Remaining(): seq<Entry>
      requires this in repr && Valid()
      reads repr
      decreases depth, 0
    {
      Found(file, buffer) + Filtered(eval, query, file, RemainingOf(itr))
    }

    constructor (eval: Evaluation, itr: Iter, query: string)
      requires ValidIter(itr)
      ensures this in repr && Valid() && repr == {this} + Repr(itr)
      ensures Remaining() == Filtered(eval, query, "", RemainingOf(itr))
    {
      this.eval, this.itr, this.query := eval, itr, query;
      file, buffer := "", [];
      depth := Depth(itr) + 1;
      repr := {this} + Repr(itr);
    }

    /** Look for an entry on which the query finds something, unless there is one already. */
    method HasNext() returns (more: bool)
      requires this in repr && Valid()
      modifies repr
      ensures Valid() && Remaining() == old(Remaining())
      ensures more <==> Remaining() != []
      ensures more <==> buffer != []
      decreases depth, 0
    {
      while true
        invariant Valid() && Remaining() == old(Remaining())
        decreases |RemainingOf(itr)|
      {
        if buffer != [] { break; }
        var below := HasNextOf(itr);
        if !below { break; }
        var e := NextOf(itr);
        if e.name != file {
          file := e.name;
          ParseFile();
        }
      }
      more := buffer != [];
    }

    /** Fill the buffer with what the query finds in the current file. */
    method ParseFile()
      requires buffer == []
      modifies this`buffer
      ensures buffer == eval(query, file)
    {
      buffer := eval(query, file);
    }

    /** The next entry: the current file with the next string found in it. */
    method Next() returns (e: Option<Entry>)
      requires this in repr && Valid()
      modifies this`buffer
      ensures Valid()
      ensures old(buffer) == [] ==> e == None && Remaining() == old(Remaining())
      ensures old(buffer) != [] ==> e.Some? && old(Remaining()) == [e.value] + Remaining()
    {
      if buffer == [] {
        return None;
      }
      e := Some(Entry(file, buffer[0]));
      buffer := buffer[1..];
    }
  }

  /** A pipeline: every query but the first filters what the ones before it yield. */
  function Chain(eval: Evaluation, queries: seq<string>, entries: seq<Entry>): seq<Entry> {
    if queries == [] then entries else
      var k := |queries| - 1;
      Filtered(eval, queries[k], "", Chain(eval, queries[..k], entries))
  }

  /** Build the pipeline for the queries of q1 +|+ q2 +|+ ... */
  method Query(eval: Evaluation, queries: seq<string>, base: BaseIter) returns (qIter: FilterIter)
    requires queries != [] && base.Valid()
    ensures qIter in qIter.repr && qIter.Valid() && fresh(qIter.repr - {base})
    ensures qIter.Remaining() == Chain(eval, queries, base.entries[base.pos..])
  {
    ghost var entries := base.entries[base.pos..];
    qIter := new FilterIter(eval, Base(base), queries[0]);
    assert queries[..1][..0] == [] && queries[..1][0] == queries[0];
    for i := 1 to |queries|
      invariant qIter in qIter.repr && qIter.Valid() && fresh(qIter.repr - {base})
      invariant qIter.Remaining() == Chain(eval, queries[..i], entries)
    {
      assert queries[..i + 1][..i] == queries[..i];
      qIter := new FilterIter(eval, Filter(qIter), queries[i]);
    }
    assert queries[..|queries|] == queries;
  }

  /** Take everything a pipeline yields: it comes to an end. */
  method Drain(it: FilterIter) returns (all: seq<Entry>)
    requires it in it.repr && it.Valid()
    modifies it.repr
    ensures it.Valid() && it.Remaining() == [] && all == old(it.Remaining())
  {
    all := [];
    var more := it.HasNext();
    while more
      invariant it.Valid() && all + it.Remaining() == old(it.Remaining())
      invariant more <==> it.Remaining() != []
      invariant more <==> it.buffer != []
      decreases |it.Remaining()|
    {
      var e := it.Next();
      all := all + [e.value];
      more := it.HasNext();
    }
  }

  /** Every query finds something in the document of a name. */
  predicate Passes(eval: Evaluation, queries: seq<string>, name: string) {
    forall i :: 0 <= i < |queries| ==> eval(queries[i], name) != []
  }

  /** What a pipeline is to yield for one name: all that the last query finds, if every earlier one finds something. */
  function Block(eval: Evaluation, queries: seq<string>, name: string): seq<Entry>
    requires queries != []
  {
    var k := |queries| - 1;
    if Passes(eval, queries[..k], name) then Found(name, eval(queries[k], name)) else []
  }

  /** The comprehension: the blocks of all names, in order. */
  function Comprehension(eval: Evaluation, queries: seq<string>, entries: seq<Entry>): seq<Entry>
    requires queries != []
  {
    if entries == [] then [] else Block(eval, queries, entries[0].name) + Comprehension(eval, queries, entries[1..])
  }

  /** Names that occur once each, and none of them a given one. */
  ghost predicate Distinct(entries: seq<Entry>, file: string) {
    (forall i :: 0 <= i < |entries| ==> entries[i].name != file)
    && forall i, j :: 0 <= i < j < |entries| ==> entries[i].name != entries[j].name
  }

  /** Entries of the current file are passed over. */
  lemma {:induction false} FilterSkips(eval: Evaluation, query: string, name: string, values: seq<string>,
                                               rest: seq<Entry>)
    ensures Filtered(eval, query, name, Found(name, values) + rest) == Filtered(eval, query, name, rest)
    decreases |values|
  {
    if values == [] {
      assert Found(name, values) + rest == rest;
    } else {
      FilterSkips(eval, query, name, values[1..], rest);
      assert (Found(name, values) + rest)[1..] == Found(name, values[1..]) + rest;
    }
  }

  /** A file is looked at once, however many entries it has. */
  lemma FilterOnce(eval: Evaluation, query: string, file: string, name: string, values: seq<string>, rest: seq<Entry>)
    requires name != file && values != []
    ensures Filtered(eval, query, file, Found(name, values) + rest)
         == Found(name, eval(query, name)) + Filtered(eval, query, name, rest)
  {
    FilterSkips(eval, query, name, values[1..], rest);
    assert (Found(name, values) + rest)[1..] == Found(name, values[1..]) + rest;
  }

  /** One more filter on one block. */
  lemma BlockExtends(eval: Evaluation, queries: seq<string>, query: string, name: string)
    requires queries != []
    ensures Block(eval, queries + [query], name)
         == if Block(eval, queries, name) == [] then [] else Found(name, eval(query, name))
  {
    var k := |queries| - 1;
    assert (queries + [query])[..|queries|] == queries;
    assert Passes(eval, queries, name) <==> Passes(eval, queries[..k], name) && eval(queries[k], name) != [];
  }

  /** One more filter on a comprehension. */
  lemma {:induction false} FilterExtends(eval: Evaluation, queries: seq<string>, query: string, file: string,
                                         entries: seq<Entry>)
    requires queries != [] && Distinct(entries, file)
    ensures Filtered(eval, query, file, Comprehension(eval, queries, entries))
         == Comprehension(eval, queries + [query], entries)
    decreases |entries|
  {
    if entries == [] {
    } else {
      var name, rest := entries[0].name, entries[1..];
      var block, more := Block(eval, queries, name), Comprehension(eval, queries, rest);
      BlockExtends(eval, queries, query, name);
      if block == [] {
        FilterExtends(eval, queries, query, file, rest);
        assert block + more == more;
      } else {
        FilterExtends(eval, queries, query, name, rest);
        FilterOnce(eval, query, file, name, eval(queries[|queries| - 1], name), more);
      }
    }
  }

  /** A first filter on entries of distinct names. */
  lemma {:induction false} FirstFilter(eval: Evaluation, query: string, file: string, entries: seq<Entry>)
    requires Distinct(entries, file)
    ensures Filtered(eval, query, file, entries) == Comprehension(eval, [query], entries)
    decreases |entries|
  {
    if entries == [] {
    } else {
      FirstFilter(eval, query, entries[0].name, entries[1..]);
      assert [query][..0] == [];
    }
  }

  /** A pipeline over entries with names that are distinct and not empty yields the comprehension. */
  lemma {:induction false} ChainIsComprehension(eval: Evaluation, queries: seq<string>, entries: seq<Entry>)
    requires queries != [] && Distinct(entries, "")
    ensures Chain(eval, queries, entries) == Comprehension(eval, queries, entries)
    decreases |queries|
  {
    var k := |queries| - 1;
    if k == 0 {
      FirstFilter(eval, queries[0], "", entries);
      assert queries == [queries[0]] && Chain(eval, queries[..0], entries) == entries;
    } else {
      ChainIsComprehension(eval, queries[..k], entries);
      FilterExtends(eval, queries[..k], queries[k], "", entries);
      assert queries == queries[..k] + [queries[k]];
    }
  }

  /** An entry without a name is passed over, and so is a repetition that directly follows, but not a later one. */
  lemma RepetitionsAndNoName(eval: Evaluation, query: string, a: Entry, b: Entry)
    requires a.name != b.name && b.name != ""
    ensures a.name == "" ==> Filtered(eval, query, "", [a]) == []
    ensures a.name != "" ==>
              var x, y := Found(a.name, eval(query, a.name)), Found(b.name, eval(query, b.name));
              Filtered(eval, query, "", [a, a]) == x && Filtered(eval, query, "", [a, b, a]) == x + (y + x)
  {
    var x, y := Found(a.name, eval(query, a.name)), Found(b.name, eval(query, b.name));
    assert [a][1..] == [] && [a, a][1..] == [a] && [a, b, a][1..] == [b, a] && [b, a][1..] == [a];
    assert Filtered(eval, query, b.name, [a]) == x + [];
    assert Filtered(eval, query, a.name, [b, a]) == y + Filtered(eval, query, b.name, [a]);
  }

  /** How many strings the queries find in the first i entries: those of the last query, in the documents in which
      every earlier query finds something. */
  function FoundBefore(eval: Evaluation, queries: seq<string>, entries: seq<Entry>, i: nat): nat
    requires queries != [] && i <= |entries|
  {
    if i == 0 then 0 else
      FoundBefore(eval, queries, entries, i - 1) + FoundIn(eval, queries, entries[i - 1].name)
  }

  function FoundIn(eval: Evaluation, queries: seq<string>, name: string): nat
    requires queries != []
  {
    var k := |queries| - 1;
    if forall q :: 0 <= q < k ==> eval(queries[q], name) != [] then |eval(queries[k], name)| else 0
  }

  /** String j found in document i stands, under its name, behind all that is found in the documents before it. */
  ghost predicate FoundAt(eval: Evaluation, queries: seq<string>, entries: seq<Entry>, all: seq<Entry>, i: nat, j: nat)
    requires queries != [] && i < |entries|
  {
    j < FoundIn(eval, queries, entries[i].name) ==>
      var k := FoundBefore(eval, queries, entries, i) + j;
      k < |all| && all[k] == Entry(entries[i].name, eval(queries[|queries| - 1], entries[i].name)[j])
  }

  /** All strings that are found, and nothing else, in the order of the entries. */
  ghost predicate AllFound(eval: Evaluation, queries: seq<string>, entries: seq<Entry>, all: seq<Entry>)
    requires queries != []
  {
    && |all| == FoundBefore(eval, queries, entries, |entries|)
    && forall i: nat, j: nat :: i < |entries| ==> FoundAt(eval, queries, entries, all, i, j)
  }

  lemma BlockFinds(eval: Evaluation, queries: seq<string>, name: string)
    requires queries != []
    ensures |Block(eval, queries, name)| == FoundIn(eval, queries, name)
    ensures forall j :: 0 <= j < |Block(eval, queries, name)| ==>
              Block(eval, queries, name)[j] == Entry(name, eval(queries[|queries| - 1], name)[j])
  {
    var k := |queries| - 1;
    assert forall q :: 0 <= q < k ==> queries[..k][q] == queries[q];
  }

  lemma {:induction false} FoundFirst(eval: Evaluation, queries: seq<string>, entries: seq<Entry>, i: nat)
    requires queries != [] && entries != [] && i <= |entries| - 1
    ensures FoundBefore(eval, queries, entries, i + 1)
         == FoundIn(eval, queries, entries[0].name) + FoundBefore(eval, queries, entries[1..], i)
  {
    if i == 0 {
      assert FoundBefore(eval, queries, entries, 0) == 0;
    } else {
      FoundFirst(eval, queries, entries, i - 1);
    }
  }

  lemma {:induction false} ComprehensionFinds(eval: Evaluation, queries: seq<string>, entries: seq<Entry>)
    requires queries != []
    ensures AllFound(eval, queries, entries, Comprehension(eval, queries, entries))
    decreases |entries|
  {
    if entries == [] {
    } else {
      var rest, all := entries[1..], Comprehension(eval, queries, entries);
      ComprehensionFinds(eval, queries, rest);
      BlockFinds(eval, queries, entries[0].name);
      FoundFirst(eval, queries, entries, |rest|);
      forall i: nat, j: nat | i < |entries| ensures FoundAt(eval, queries, entries, all, i, j) {
        if i == 0 {
          assert FoundBefore(eval, queries, entries, 0) == 0;
        } else {
          assert FoundAt(eval, queries, rest, Comprehension(eval, queries, rest), i - 1, j);
          FoundBehind(eval, queries, entries, i - 1, j);
        }
      }
    }
  }

  lemma FoundBehind(eval: Evaluation, queries: seq<string>, entries: seq<Entry>, i: nat, j: nat)
    requires queries != [] && entries != [] && i < |entries| - 1
    requires FoundAt(eval, queries, entries[1..], Comprehension(eval, queries, entries[1..]), i, j)
    ensures FoundAt(eval, queries, entries, Comprehension(eval, queries, entries), i + 1, j)
  {
    BlockFinds(eval, queries, entries[0].name);
    FoundFirst(eval, queries, entries, i);
    assert entries[1..][i] == entries[i + 1];
  }

  /** Run the queries of q1 +|+ q2 +|+ ... over entries whose names are distinct and not empty. */
  method QueryAll(eval: Evaluation, queries: seq<string>, entries: seq<Entry>) returns (all: seq<Entry>)
    requires queries != [] && Distinct(entries, "")
    ensures AllFound(eval, queries, entries, all)
  {
    var base := new BaseIter(entries);
    assert entries[0..] == entries;
    var it := Query(eval, queries, base);
    all := Drain(it);
    ChainIsComprehension(eval, queries, entries);
    ComprehensionFinds(eval, queries, entries);
  }
}
