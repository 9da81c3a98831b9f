/** Several corpora under names of their own, read as one. */
module MultiCorpora {
  import opened Entries
  import opened Names
  import opened NameOrder
  import opened Wrappers

  /** A corpus as it was registered: its file and whether that is to be searched for corpora. */
  datatype Corpus = Corpus(filename: string, recursive: bool)
  datatype Named = Named(name: string, corpus: Corpus)

  /** What comes of opening a corpus and asking for its entries: the file cannot be opened, the query is not accepted,
      or there are entries. */
  datatype Opening = CannotOpen | CannotQuery | Opens(entries: seq<Entry>)
  type World = Corpus -> Opening

  /** The names are in the order of NameCompare, and no two are equivalent in it. */
  ghost predicate Ordered(corpora: seq<Named>) {
    forall i, j :: 0 <= i < j < |corpora| ==> NameLess(corpora[i].name, corpora[j].name)
  }

  /** What a registration under a name does: it takes the place of one under an equivalent name, whose spelling stays,
      or gets a place of its own. */
  ghost predicate Registered(before: seq<Named>, after: seq<Named>, name: string, corpus: Corpus) {
    || (exists i :: 0 <= i < |before| && Equivalent(before[i].name, name)
          && after == before[i := before[i].(corpus := corpus)])
    || ((forall i :: 0 <= i < |before| ==> !Equivalent(before[i].name, name))
        && exists i :: 0 <= i <= |before| && after == before[..i] + [Named(name, corpus)] + before[i..])
  }

  predicate IsPrefix(s: string, path: string) {
    |s| <= |path| && path[..|s|] == s
  }

  /** The first of the longest registered prefixes of a path that are not empty; -1 if there is none. */
  function Longest(corpora: seq<Named>, path: string): (k: int)
    ensures -1 <= k < |corpora|
    ensures 0 <= k ==> IsPrefix(corpora[k].name, path) && corpora[k].name != ""
    ensures forall i :: 0 <= i < |corpora| && IsPrefix(corpora[i].name, path) ==>
              |corpora[i].name| <= if 0 <= k then |corpora[k].name| else 0
  {
    if corpora == [] then -1 else
      var n := |corpora| - 1;
      var k := Longest(corpora[..n], path);
      var size := if 0 <= k then |corpora[k].name| else 0;
      assert forall i :: 0 <= i < n ==> corpora[..n][i] == corpora[i];
      if IsPrefix(corpora[n].name, path) && size < |corpora[n].name| then n else k
  }

  lemma LongestNext(corpora: seq<Named>, i: nat, path: string)
    requires i < |corpora|
    ensures var k := Longest(corpora[..i], path);
            var size := if 0 <= k then |corpora[k].name| else 0;
            Longest(corpora[..i + 1], path)
            == if IsPrefix(corpora[i].name, path) && size < |corpora[i].name| then i else k
  {
    assert corpora[..i + 1][..i] == corpora[..i];
  }

  /** The corpus of the longest prefix; only the empty name leads to none, given as one without a file. */
  function CorpusOf(corpora: seq<Named>, path: string): Option<Corpus> {
    var k := Longest(corpora, path);
    if 0 <= k then Some(corpora[k].corpus)
    else if exists i :: 0 <= i < |corpora| && IsPrefix(corpora[i].name, path) then Some(Corpus("", false)) else None
  }

  /** What follows the longest prefix and one more character. */
  function EntryOf(corpora: seq<Named>, path: string): EntryPath {
    var k := Longest(corpora, path);
    var size := if 0 <= k then |corpora[k].name| else 0;
    if forall i :: 0 <= i < |corpora| ==> !IsPrefix(corpora[i].name, path) then NoCorpus
    else if size + 1 <= |path| then EntryName(path[size + 1..]) else TooShort
  }

  class MultiCorpusReader {
    var corpora: seq<Named> // d_corporaMap, in its order

    constructor ()
      ensures corpora == []
    {
      corpora := [];
    }

    /** The position of the first name that does not precede a given one. */
    method LowerBound(name: string) returns (i: nat)
      ensures i <= |corpora| && forall j :: 0 <= j < i ==> NameLess(corpora[j].name, name)
      ensures i < |corpora| ==> !NameLess(corpora[i].name, name)
    {
      i := 0;
      while i < |corpora|
        invariant i <= |corpora| && forall j :: 0 <= j < i ==> NameLess(corpora[j].name, name)
      {
        var before := NameCompare(corpora[i].name, name);
        if !before {
          return;
        }
        i := i + 1;
      }
    }

    /** Register a corpus. */
    method PushBack(name: string, corpus: Corpus)
      requires Ordered(corpora)
      modifies this
      ensures Ordered(corpora) && Registered(old(corpora), corpora, name, corpus)
      ensures Named(name, corpus) in corpora
              || exists c :: c in old(corpora) && Equivalent(c.name, name) && Named(c.name, corpus) in corpora
      ensures forall c: Named :: !Equivalent(c.name, name) ==> (c in corpora <==> c in old(corpora))
    {
      var i := LowerBound(name);
      var behind := true;
      if i < |corpora| {
        behind := NameCompare(name, corpora[i].name);
      }
      Place(corpora, name, corpus, i);
      ghost var before := corpora;
      if behind {
        corpora := corpora[..i] + [Named(name, corpus)] + corpora[i..];
      } else {
        corpora := corpora[i := corpora[i].(corpus := corpus)];
      }
      OthersStay(before, corpora, name, corpus);
    }

    /** The corpus a path leads to: that of the longest name the path starts with. */
    method CorpusFromPath(path: string) returns (r: Option<Corpus>)
      ensures r == CorpusOf(corpora, path)
    {
      var found, size, corpus := false, 0, Corpus("", false);
      for i := 0 to |corpora|
        invariant found <==> exists j :: 0 <= j < i && IsPrefix(corpora[j].name, path)
        invariant var k := Longest(corpora[..i], path);
                  size == (if 0 <= k then |corpora[k].name| else 0)
                  && corpus == if 0 <= k then corpora[k].corpus else Corpus("", false)
      {
        LongestNext(corpora, i, path);
        if IsPrefix(corpora[i].name, path) {
          found := true;
          if |corpora[i].name| > size {
            size, corpus := |corpora[i].name|, corpora[i].corpus;
          }
        }
      }
      assert corpora[..|corpora|] == corpora;
      r := if found then Some(corpus) else None;
    }

    /** The name of the entry within that corpus: what follows the name and one more character. */
    method EntryFromPath(path: string) returns (r: EntryPath)
      ensures r == EntryOf(corpora, path)
    {
      var found, size := false, 0;
      for i := 0 to |corpora|
        invariant found <==> exists j :: 0 <= j < i && IsPrefix(corpora[j].name, path)
        invariant var k := Longest(corpora[..i], path); size == if 0 <= k then |corpora[k].name| else 0
      {
        LongestNext(corpora, i, path);
        if IsPrefix(corpora[i].name, path) {
          found := true;
          if |corpora[i].name| > size {
            size := |corpora[i].name|;
          }
        }
      }
      assert corpora[..|corpora|] == corpora;
      if !found {
        return NoCorpus;
      }
      r := if size + 1 <= |path| then EntryName(path[size + 1..]) else TooShort;
    }
  }

  /** What entryFromPath returns or throws: no name is a prefix; the path ends with the name; or the rest. */
  datatype EntryPath = NoCorpus | TooShort | EntryName(name: string)

  /** Where a name belongs that comes after the first i names and not after the others. */
  lemma Place(corpora: seq<Named>, name: string, corpus: Corpus, i: nat)
    requires Ordered(corpora) && i <= |corpora| && forall j :: 0 <= j < i ==> NameLess(corpora[j].name, name)
    requires i < |corpora| ==> !NameLess(corpora[i].name, name)
    ensures i == |corpora| || NameLess(name, corpora[i].name) ==>
              var after := corpora[..i] + [Named(name, corpus)] + corpora[i..];
              Ordered(after) && Registered(corpora, after, name, corpus)
    ensures i < |corpora| && !NameLess(name, corpora[i].name) ==>
              var after := corpora[i := corpora[i].(corpus := corpus)];
              Ordered(after) && Registered(corpora, after, name, corpus)
  {
    if i == |corpora| || NameLess(name, corpora[i].name) {
      forall j | i <= j < |corpora| ensures NameLess(name, corpora[j].name) {
        if i < j {
          StrictWeakOrder(name, corpora[i].name, corpora[j].name);
        }
      }
      forall j | 0 <= j < |corpora| ensures !Equivalent(corpora[j].name, name) {
      }
    }
  }

  /** A registration reaches the corpus under its name or an equivalent one, and no other registration. */
  lemma OthersStay(before: seq<Named>, after: seq<Named>, name: string, corpus: Corpus)
    requires Registered(before, after, name, corpus)
    ensures Named(name, corpus) in after
            || exists c :: c in before && Equivalent(c.name, name) && Named(c.name, corpus) in after
    ensures forall c: Named :: !Equivalent(c.name, name) ==> (c in after <==> c in before)
  {
    if i :| 0 <= i < |before| && Equivalent(before[i].name, name)
            && after == before[i := before[i].(corpus := corpus)] {
      ChangedAt(before, i, before[i].(corpus := corpus));
    } else {
      var i :| 0 <= i <= |before| && after == before[..i] + [Named(name, corpus)] + before[i..];
      StrictWeakOrder(name, name, name);
      InsertedAt(before, i, Named(name, corpus));
    }
  }

  lemma InsertedAt(before: seq<Named>, i: nat, c: Named)
    requires i <= |before|
    ensures var after := before[..i] + [c] + before[i..];
            c in after && forall d :: d != c ==> (d in after <==> d in before)
  {
    assert (before[..i] + [c] + before[i..])[i] == c;
    assert before == before[..i] + before[i..];
  }

  lemma ChangedAt(before: seq<Named>, i: nat, c: Named)
    requires i < |before|
    ensures c in before[i := c]
    ensures forall d :: d != c && d != before[i] ==> (d in before[i := c] <==> d in before)
  {
    var after := before[i := c];
    assert after[i] == c;
    forall d | d in before && d != before[i] ensures d in after {
      var k :| 0 <= k < |before| && before[k] == d;
      assert after[k] == d;
    }
  }

  /** The name under which an entry of a corpus is yielded. */
  function PathOf(name: string, entry: string): string {
    name + "/" + entry
  }

  lemma PathParts(name: string, entry: string)
    ensures IsPrefix(name, PathOf(name, entry)) && PathOf(name, entry)[|name| + 1..] == entry
    ensures |PathOf(name, entry)| == |name| + 1 + |entry|
  {
  }

  /** No name is registered twice. */
  lemma OrderedDistinct(corpora: seq<Named>, i: nat, j: nat)
    requires Ordered(corpora) && i < |corpora| && j < |corpora| && corpora[i].name == corpora[j].name
    ensures i == j
  {
    StrictWeakOrder(corpora[i].name, corpora[i].name, corpora[i].name);
  }

  /** The name of an entry leads back to its corpus and its own name just when no longer registered name is a prefix
      of it. */
  lemma ResolvesExactly(corpora: seq<Named>, i: nat, entry: string)
    requires Ordered(corpora) && i < |corpora| && corpora[i].name != ""
    ensures var path := PathOf(corpora[i].name, entry);
            (CorpusOf(corpora, path) == Some(corpora[i].corpus) && EntryOf(corpora, path) == EntryName(entry))
            <==> forall j :: 0 <= j < |corpora| && IsPrefix(corpora[j].name, path) ==>
                   |corpora[j].name| <= |corpora[i].name|
  {
    var path, k := PathOf(corpora[i].name, entry), Longest(corpora, PathOf(corpora[i].name, entry));
    PathParts(corpora[i].name, entry);
    assert 0 <= k && |corpora[i].name| <= |corpora[k].name|;
    if |corpora[k].name| == |corpora[i].name| {
      OrderedDistinct(corpora, i, k);
    } else if |corpora[k].name| + 1 <= |path| {
      assert |path[|corpora[k].name| + 1..]| < |entry|;
    }
  }

  /** With the corpora "a" and "a/b" registered, the entry "b/x" of the first leads to the entry "x" of the second. */
  lemma ResolvesElsewhere(c: Corpus, d: Corpus)
    ensures var corpora, path := [Named("a", c), Named("a/b", d)], PathOf("a", "b/x");
            Ordered(corpora) && CorpusOf(corpora, path) == Some(d) && EntryOf(corpora, path) == EntryName("x")
  {
    var corpora, path := [Named("a", c), Named("a/b", d)], PathOf("a", "b/x");
    assert path == PathOf("a/b", "x");
    PathParts("a/b", "x");
    assert IsPrefix(corpora[1].name, path);
    PrefixFirst();
  }

  lemma {:induction false} LexPrefix(a: seq<Key>, b: seq<Key>)
    requires |a| < |b| && b[..|a|] == a
    ensures LexLess(a, b)
  {
    if a == [] {
    } else {
      assert a[0] == b[..|a|][0] && a[1..] == b[..|a|][1..] == b[1..][..|a| - 1];
      LexPrefix(a[1..], b[1..]);
    }
  }

  lemma PrefixFirst()
    ensures NameLess("a", "a/b")
  {
    assert "a"[1..] == "" && "a/b"[1..] == "/b" && "/b"[1..] == "b" && "b"[1..] == "";
    assert "a"[..1] == "a" && "a/b"[..1] == "a" && "/b"[..1] == "/";
    assert Runs("a") == ["a"] + Runs("");
    assert Runs("a/b") == ["a"] + Runs("/b") && Runs("/b") == ["/"] + Runs("b");
    var k, l := NameKeys("a"), NameKeys("a/b");
    assert k == [TokenKey(""), TokenKey("a")] && l[..2] == k;
    LexPrefix(k, l);
  }

  /** What decides for any path: the one registered name that starts it and is longer than all others that do. */
  lemma LongestWins(corpora: seq<Named>, path: string, i: nat)
    requires i < |corpora| && IsPrefix(corpora[i].name, path) && corpora[i].name != ""
    requires forall j :: 0 <= j < |corpora| && j != i && IsPrefix(corpora[j].name, path) ==>
               |corpora[j].name| < |corpora[i].name|
    ensures CorpusOf(corpora, path) == Some(corpora[i].corpus)
    ensures EntryOf(corpora, path) == if |corpora[i].name| < |path| then EntryName(path[|corpora[i].name| + 1..])
                                      else TooShort
  {
    var k := Longest(corpora, path);
    assert |corpora[i].name| <= if 0 <= k then |corpora[k].name| else 0;
  }

  lemma NonePrecedes(corpora: seq<Named>, path: string)
    ensures CorpusOf(corpora, path) == None <==> forall j :: 0 <= j < |corpora| ==> !IsPrefix(corpora[j].name, path)
    ensures EntryOf(corpora, path) == NoCorpus <==> forall j :: 0 <= j < |corpora| ==> !IsPrefix(corpora[j].name, path)
  {
  }

  /** The entries of a corpus under their full names. */
  function Prefixed(name: string, entries: seq<Entry>): (r: seq<Entry>)
    ensures |r| == |entries|
  {
    seq(|entries|, i requires 0 <= i < |entries| => Entry(PathOf(name, entries[i].name), entries[i].contents))
  }

  lemma PrefixedFirst(name: string, entries: seq<Entry>, more: seq<Entry>)
    requires entries != []
    ensures var e := Entry(PathOf(name, entries[0].name), entries[0].contents);
            Prefixed(name, entries) + more == [e] + (Prefixed(name, entries[1..]) + more)
  {
  }

  /** All entries of those corpora that open and accept the query, in order. */
  function AllEntries(world: World, corpora: seq<Named>): seq<Entry> {
    if corpora == [] then [] else EntriesOf(world, corpora[0]) + AllEntries(world, corpora[1..])
  }

  /** The number of entries of the first i corpora, as far as they open and accept the query. */
  function CountBefore(world: World, corpora: seq<Named>, i: nat): nat
    requires i <= |corpora|
  {
    if i == 0 then 0 else CountBefore(world, corpora, i - 1) + Count(world, corpora[i - 1])
  }

  function Count(world: World, corpus: Named): nat {
    match world(corpus.corpus) case Opens(entries) => |entries| case _ => 0
  }

  /** Entry j of corpus i stands behind those of the corpora before it, under its full name. */
  ghost predicate StandsAt(world: World, corpora: seq<Named>, all: seq<Entry>, i: nat, j: nat)
    requires i < |corpora|
  {
    match world(corpora[i].corpus)
    case Opens(entries) =>
      j < |entries| ==>
        var k := CountBefore(world, corpora, i) + j;
        k < |all| && all[k] == Entry(corpora[i].name + "/" + entries[j].name, entries[j].contents)
    case _ => true
  }

  /** All entries of all corpora that open, and nothing else, in order. */
  ghost predicate Concatenated(world: World, corpora: seq<Named>, all: seq<Entry>) {
    && |all| == CountBefore(world, corpora, |corpora|)
    && forall i: nat, j: nat :: i < |corpora| ==> StandsAt(world, corpora, all, i, j)
  }

  lemma {:induction false} CountFirst(world: World, corpora: seq<Named>, i: nat)
    requires corpora != [] && i <= |corpora| - 1
    ensures CountBefore(world, corpora, i + 1) == Count(world, corpora[0]) + CountBefore(world, corpora[1..], i)
  {
    if i == 0 {
      assert CountBefore(world, corpora, 0) == 0;
    } else {
      CountFirst(world, corpora, i - 1);
    }
  }

  lemma {:induction false} AllEntriesStand(world: World, corpora: seq<Named>)
    ensures Concatenated(world, corpora, AllEntries(world, corpora))
  {
    if corpora == [] {
    } else {
      var first, more := EntriesOf(world, corpora[0]), AllEntries(world, corpora[1..]);
      AllEntriesStand(world, corpora[1..]);
      assert AllEntries(world, corpora) == first + more;
      FirstConcatenated(world, corpora, first, more);
    }
  }

  function EntriesOf(world: World, corpus: Named): (r: seq<Entry>)
    ensures |r| == Count(world, corpus)
  {
    match world(corpus.corpus) case Opens(entries) => Prefixed(corpus.name, entries) case _ => []
  }

  lemma FirstConcatenated(world: World, corpora: seq<Named>, first: seq<Entry>, more: seq<Entry>)
    requires corpora != [] && first == EntriesOf(world, corpora[0]) && Concatenated(world, corpora[1..], more)
    ensures Concatenated(world, corpora, first + more)
  {
    CountFirst(world, corpora, |corpora| - 1);
    forall i: nat, j: nat | i < |corpora| ensures StandsAt(world, corpora, first + more, i, j) {
      if i == 0 {
        assert CountBefore(world, corpora, 0) == 0;
      } else {
        assert StandsAt(world, corpora[1..], more, i - 1, j);
        StandsBehind(world, corpora, first, more, i - 1, j);
      }
    }
  }

  lemma StandsBehind(world: World, corpora: seq<Named>, first: seq<Entry>, more: seq<Entry>, i: nat, j: nat)
    requires corpora != [] && i < |corpora| - 1 && |first| == Count(world, corpora[0])
    requires StandsAt(world, corpora[1..], more, i, j)
    ensures StandsAt(world, corpora, first + more, i + 1, j)
  {
    CountFirst(world, corpora, i);
    assert corpora[1..][i] == corpora[i + 1];
  }

  datatype Result<+T> = Ok(value: T) | Interrupted

  /** The iterator over several corpora. */
  class MultiIter {
    const world: World // what opening a corpus with the query of this iterator comes to
    ghost const corpora: seq<Named> // what d_iters was at first
    const totalIters: nat // d_totalIters
    var iters: seq<Named> // d_iters: corpora that have not been opened yet
    var currentIter: Option<seq<Entry>> // d_currentIter: what the current corpus has yet to yield
    var currentName: string // d_currentName
    var interrupted: bool // d_interrupted

    ghost predicate Valid()
      reads this
    {
      && totalIters == |corpora| && |iters| <= totalIters && iters == corpora[Tried()..]
      && (currentIter.Some? <==> 0 < Tried() && world(corpora[Tried() - 1].corpus).Opens?)
    }

    /** The number of corpora it has tried to open. */
    ghost function Tried(): int
      reads this
    {
      totalIters - |iters|
    }

    constructor (world: World, corpora: seq<Named>)
      ensures Valid() && this.corpora == corpora && this.world == world && !interrupted
      ensures Remaining() == AllEntries(world, corpora) && Done() == 0
    {
      this.world, this.corpora, totalIters, iters := world, corpora, |corpora|, corpora;
      currentIter, currentName, interrupted := None, "", false;
    }

    /** The entries it has yet to yield. */
    ghost function Remaining(): seq<Entry>
      reads this
    {
      (if currentIter.Some? then Prefixed(currentName, currentIter.value) else []) + AllEntries(world, iters)
    }

    /** Open the first corpus that is left; if that fails there is no current iterator. */
    method OpenTip()
      requires iters != [] && currentIter == None
      modifies this`currentIter, this`currentName
      ensures match world(iters[0].corpus)
              case Opens(entries) => currentIter == Some(entries) && currentName == iters[0].name
              case _ => currentIter == None && currentName == old(currentName)
    {
      match world(iters[0].corpus) {
        case CannotOpen =>
        case CannotQuery =>
        case Opens(entries) =>
          currentIter := Some(entries);
          currentName := iters[0].name;
      }
    }

    /** Open corpora until one has an entry. */
    method NextIterator()
      requires Valid()
      modifies this`currentIter, this`currentName, this`iters
      ensures Valid() && Remaining() == old(Remaining()) && Done() >= old(Done())
      ensures !interrupted ==> iters == [] || (currentIter.Some? && currentIter.value != [])
      ensures interrupted ==> iters == old(iters) && currentIter == old(currentIter) && currentName == old(currentName)
    {
      while iters != [] && !interrupted && (currentIter.None? || currentIter.value == [])
        invariant Valid() && Remaining() == old(Remaining()) && Done() >= old(Done())
        invariant interrupted ==>
                    iters == old(iters) && currentIter == old(currentIter) && currentName == old(currentName)
        decreases |iters|
      {
        OpenNext();
      }
    }

    /** The body of that loop: drop the current corpus, which is used up, and open the next one. */
    method OpenNext()
      requires Valid() && iters != [] && (currentIter.None? || currentIter.value == [])
      modifies this`currentIter, this`currentName, this`iters
      ensures Valid() && Remaining() == old(Remaining()) && Done() >= old(Done()) && iters == old(iters)[1..]
    {
      assert Remaining() == AllEntries(world, iters);
      currentIter := None;
      OpenTip();
      iters := iters[1..];
    }

    method HasNext() returns (r: Result<bool>)
      requires Valid()
      modifies this`currentIter, this`currentName, this`iters
      ensures Valid() && Remaining() == old(Remaining()) && Done() >= old(Done())
      ensures r == Interrupted <==> interrupted
      ensures r.Ok? ==> (r.value <==> Remaining() != []) && (r.value <==> Ready()) && (!r.value ==> iters == [])
    {
      if interrupted {
        return Interrupted;
      }
      NextIterator();
      r := Ok(currentIter.Some? && currentIter.value != []);
    }

    /** The current corpus has an entry. */
    ghost predicate Ready()
      reads this
    {
      currentIter.Some? && currentIter.value != []
    }

    method Next() returns (r: Result<Entry>)
      requires Valid() && Ready()
      modifies this`currentIter
      ensures Valid() && Done() == old(Done())
      ensures r == Interrupted <==> interrupted
      ensures r == Interrupted ==> Remaining() == old(Remaining())
      ensures r.Ok? ==> old(Remaining()) == [r.value] + Remaining()
    {
      if interrupted {
        return Interrupted;
      }
      var e := currentIter.value[0];
      PrefixedFirst(currentName, currentIter.value, AllEntries(world, iters));
      currentIter := Some(currentIter.value[1..]);
      r := Ok(Entry(PathOf(currentName, e.name), e.contents));
    }

    /** Called by another thread. */
    method Interrupt()
      modifies this`interrupted
      ensures interrupted
    {
      interrupted := true;
    }

    /** The number of corpora that are done with. */
    ghost function Done(): int
      reads this
    {
      totalIters - |iters| - if currentIter.Some? then 1 else 0
    }

    /** How far the iteration is, in percent: undefined without corpora, and 100 only when all have been tried and
        the last did not open or refused the query; an iterator that ends within a corpus stays below. */
    method Progress() returns (p: Option<real>)
      requires Valid()
      ensures p == Percent(totalIters, Done())
      ensures p == None <==> corpora == []
      ensures p.Some? ==> 0.0 <= p.value <= 100.0
      ensures p == Some(100.0) <==> corpora != [] && iters == [] && !world(corpora[|corpora| - 1].corpus).Opens?
    {
      if totalIters == 0 {
        return None;
      }
      PercentGrows(totalIters, Done(), totalIters);
      PercentProduct(totalIters, Done());
      PercentProduct(totalIters, totalIters);
      var done := if currentIter.Some? then totalIters - |iters| - 1 else totalIters - |iters|;
      return Some(done as real / totalIters as real * 100.0);
    }
  }

  /** The share of a number of corpora; undefined if there are none. */
  function Percent(total: nat, done: int): Option<real> {
    if total == 0 then None else Some(done as real / total as real * 100.0)
  }

  /** Progress grows with the number of corpora done with, and stays between 0 and 100. */
  lemma PercentGrows(total: nat, a: int, b: int)
    requires 0 < total && 0 <= a <= b <= total
    ensures 0.0 <= Percent(total, a).value <= Percent(total, b).value <= 100.0
    ensures a < b ==> Percent(total, a).value < Percent(total, b).value
  {
    var n := total as real;
    DivideGrows(0.0, a as real, n);
    DivideGrows(a as real, b as real, n);
    DivideGrows(b as real, n, n);
    assert 0.0 / n == 0.0 && n / n == 1.0;
  }

  lemma PercentProduct(total: nat, done: int)
    requires 0 < total
    ensures Percent(total, done).value * total as real == 100.0 * done as real
    ensures done == total ==> Percent(total, done) == Some(100.0)
  {
    var n := total as real;
    var x := done as real / n;
    assert x * n == done as real;
    assert x * 100.0 * n == 100.0 * (x * n);
    assert n / n == 1.0;
  }

  lemma DivideGrows(a: real, b: real, n: real)
    requires 0.0 < n && a <= b
    ensures a / n <= b / n && (a < b ==> a / n < b / n)
  {
    var x, y := a / n, b / n;
    assert x * n == a && y * n == b;
    assert (y - x) * n == b - a;
  }

  /** Progress that was asked for while a growing number of corpora was done with. */
  ghost predicate Tracks(total: nat, last: int, done: seq<int>, progress: seq<Option<real>>) {
    && |progress| == |done|
    && (forall i :: 0 <= i < |done| ==> 0 <= done[i] <= last && progress[i] == Percent(total, done[i]))
    && forall i, j :: 0 <= i < j < |done| ==> done[i] <= done[j]
  }

  lemma TracksMore(total: nat, now: int, done: seq<int>, progress: seq<Option<real>>)
    requires Tracks(total, now, done, progress) && 0 <= now
    ensures Tracks(total, now, done + [now], progress + [Percent(total, now)])
  {
  }

  lemma TracksLater(total: nat, now: int, done: seq<int>, progress: seq<Option<real>>, later: int)
    requires Tracks(total, now, done, progress) && now <= later
    ensures Tracks(total, later, done, progress)
  {
  }

  /** A run without interruption, with progress asked for before every entry and at the end: it yields all entries
      in order, its progress never goes back, and it ends at 100 just when the last corpus gave no entries because it
      did not open or refused the query. */
  method ReadAll(world: World, corpora: seq<Named>)
    returns (all: seq<Entry>, progress: seq<Option<real>>, atEnd: Option<real>)
    ensures all == AllEntries(world, corpora) && Concatenated(world, corpora, all) && |progress| == |all|
    ensures NeverBack(progress)
    ensures atEnd == Some(100.0) <==> corpora != [] && !world(corpora[|corpora| - 1].corpus).Opens?
  {
    var iter := new MultiIter(world, corpora);
    all, progress := ReadEntries(iter);
    AllEntriesStand(world, corpora);
    atEnd := iter.Progress();
  }

  method ReadEntries(iter: MultiIter) returns (all: seq<Entry>, progress: seq<Option<real>>)
    requires iter.Valid() && !iter.interrupted && iter.Done() == 0
    modifies iter`currentIter, iter`currentName, iter`iters
    ensures iter.Valid() && iter.iters == []
    ensures all == old(iter.Remaining()) && |progress| == |all| && NeverBack(progress)
  {
    ghost var done, whole := [], iter.Remaining();
    all, progress := [], [];
    var more := iter.HasNext();
    assert all + whole == whole;
    while more == Ok(true)
      invariant Between(iter, more) && !iter.interrupted
      invariant all + iter.Remaining() == whole && |progress| == |all|
      invariant Tracks(iter.totalIters, iter.Done(), done, progress)
      decreases |iter.Remaining()|
    {
      all, progress, more, done := ReadEntry(iter, all, progress, done);
    }
    AllProgress(iter.totalIters, iter.Done(), done, progress);
  }

  /** What a run yields that is interrupted in front of the calls of hasNext and next for which `when` holds, counted
      from 0: the first entries, two calls for each. It is cut short just when the interruption comes in front of one
      of the calls that a whole run makes, and then at the first such call. */
  ghost predicate CutOff(whole: seq<Entry>, all: seq<Entry>, calls: nat, cut: bool, when: nat -> bool) {
    && all <= whole && |all| == calls / 2
    && (cut <==> exists k: nat :: k <= 2 * |whole| && when(k))
    && (!cut ==> all == whole && calls == 2 * |all| + 1)
    && (forall k: nat :: k < calls ==> !when(k))
    && (cut ==> when(calls))
  }

  method ReadUntil(world: World, corpora: seq<Named>, when: nat -> bool)
    returns (all: seq<Entry>, calls: nat, cut: bool)
    ensures CutOff(AllEntries(world, corpora), all, calls, cut, when)
  {
    var iter := new MultiIter(world, corpora);
    all, calls, cut := ReadOn(iter, when);
  }

  method ReadOn(iter: MultiIter, when: nat -> bool) returns (all: seq<Entry>, calls: nat, cut: bool)
    requires iter.Valid() && !iter.interrupted
    modifies iter`currentIter, iter`currentName, iter`iters, iter`interrupted
    ensures CutOff(old(iter.Remaining()), all, calls, cut, when)
  {
    ghost var whole := iter.Remaining();
    all, calls, cut := [], 0, false;
    assert all + whole == whole;
    var goOn := true;
    while goOn
      invariant iter.Valid()
      invariant goOn ==> !iter.interrupted && SoFar(whole, all, iter.Remaining(), calls, when)
      invariant !goOn ==> CutOff(whole, all, calls, cut, when)
      decreases goOn, |iter.Remaining()|
    {
      goOn, all, calls, cut := ReadRound(iter, whole, all, calls, when);
    }
  }

  method ReadRound(iter: MultiIter, ghost whole: seq<Entry>, all: seq<Entry>, calls: nat, when: nat -> bool)
    returns (goOn: bool, all': seq<Entry>, calls': nat, cut: bool)
    requires iter.Valid() && !iter.interrupted && SoFar(whole, all, iter.Remaining(), calls, when)
    modifies iter`currentIter, iter`currentName, iter`iters, iter`interrupted
    ensures iter.Valid()
    ensures goOn ==> !iter.interrupted && SoFar(whole, all', iter.Remaining(), calls', when)
                     && |iter.Remaining()| < |old(iter.Remaining())|
    ensures !goOn ==> CutOff(whole, all', calls', cut, when)
  {
    ghost var left := iter.Remaining();
    var more := AskInterrupted(iter, when(calls));
    if more == Interrupted {
      CutShort(whole, all, left, calls, calls, when);
      return false, all, calls, true;
    }
    if !more.value {
      NotCut(whole, all, calls, when);
      return false, all, calls + 1, false;
    }
    goOn, all', calls', cut := ReadOne(iter, whole, left, all, calls, when);
  }

  method ReadOne(iter: MultiIter, ghost whole: seq<Entry>, ghost left: seq<Entry>, all: seq<Entry>, calls: nat,
                 when: nat -> bool)
    returns (goOn: bool, all': seq<Entry>, calls': nat, cut: bool)
    requires iter.Valid() && iter.Ready() && !iter.interrupted && left == iter.Remaining() && left != []
    requires SoFar(whole, all, left, calls, when) && !when(calls)
    modifies iter`currentIter, iter`interrupted
    ensures iter.Valid()
    ensures goOn ==> !iter.interrupted && SoFar(whole, all', iter.Remaining(), calls', when)
                     && |iter.Remaining()| < |left|
    ensures !goOn ==> CutOff(whole, all', calls', cut, when)
  {
    var e := TakeInterrupted(iter, when(calls + 1));
    if e == Interrupted {
      CutShort(whole, all, left, calls, calls + 1, when);
      return false, all, calls + 1, true;
    }
    OneMore(whole, all, e.value, iter.Remaining(), calls, when);
    return true, all + [e.value], calls + 2, false;
  }

  /** Between two rounds: what is left, and no interruption yet. */
  ghost predicate SoFar(whole: seq<Entry>, all: seq<Entry>, left: seq<Entry>, calls: nat, when: nat -> bool) {
    all + left == whole && calls == 2 * |all| && forall k: nat :: k < calls ==> !when(k)
  }

  lemma OneMore(whole: seq<Entry>, all: seq<Entry>, e: Entry, left: seq<Entry>, calls: nat, when: nat -> bool)
    requires SoFar(whole, all, [e] + left, calls, when) && !when(calls) && !when(calls + 1)
    ensures SoFar(whole, all + [e], left, calls + 2, when)
  {
    assert all + [e] + left == all + ([e] + left);
  }

  lemma CutShort(whole: seq<Entry>, all: seq<Entry>, left: seq<Entry>, calls: nat, k: nat, when: nat -> bool)
    requires SoFar(whole, all, left, calls, when) && when(k)
    requires k == calls || (k == calls + 1 && left != [] && !when(calls))
    ensures CutOff(whole, all, k, true, when)
  {
    assert |whole| == |all| + |left|;
  }

  lemma NotCut(whole: seq<Entry>, all: seq<Entry>, calls: nat, when: nat -> bool)
    requires SoFar(whole, all, [], calls, when) && !when(calls)
    ensures CutOff(whole, all, calls + 1, false, when)
  {
    assert all + [] == all;
  }

  /** hasNext, possibly with an interruption just before. */
  method AskInterrupted(iter: MultiIter, now: bool) returns (more: Result<bool>)
    requires iter.Valid() && !iter.interrupted
    modifies iter`currentIter, iter`currentName, iter`iters, iter`interrupted
    ensures iter.Valid() && iter.Remaining() == old(iter.Remaining()) && (iter.interrupted <==> now)
    ensures more == Interrupted <==> now
    ensures more.Ok? ==> (more.value <==> iter.Remaining() != []) && (more.value <==> iter.Ready())
  {
    if now {
      iter.Interrupt();
    }
    more := iter.HasNext();
  }

  /** next, possibly with an interruption just before. */
  method TakeInterrupted(iter: MultiIter, now: bool) returns (e: Result<Entry>)
    requires iter.Valid() && iter.Ready() && !iter.interrupted
    modifies iter`currentIter, iter`interrupted
    ensures iter.Valid() && (iter.interrupted <==> now)
    ensures e == Interrupted <==> now
    ensures e.Ok? ==> old(iter.Remaining()) == [e.value] + iter.Remaining()
  {
    if now {
      iter.Interrupt();
    }
    e := iter.Next();
  }

  /** The iterator has just been asked for more. */
  ghost predicate Between(iter: MultiIter, more: Result<bool>)
    reads iter
  {
    && iter.Valid() && more.Ok? && (!more.value ==> iter.iters == [])
    && (more.value <==> iter.Remaining() != []) && (more.value <==> iter.Ready())
  }

  /** The round of that loop. */
  method ReadEntry(iter: MultiIter, all: seq<Entry>, progress: seq<Option<real>>, ghost done: seq<int>)
    returns (all': seq<Entry>, progress': seq<Option<real>>, more: Result<bool>, ghost done': seq<int>)
    requires iter.Valid() && iter.Ready() && !iter.interrupted
    requires Tracks(iter.totalIters, iter.Done(), done, progress)
    modifies iter`currentIter, iter`currentName, iter`iters
    ensures Between(iter, more) && |all'| == |all| + 1 && |progress'| == |progress| + 1
    ensures all' + iter.Remaining() == all + old(iter.Remaining()) && |iter.Remaining()| < old(|iter.Remaining()|)
    ensures Tracks(iter.totalIters, iter.Done(), done', progress')
  {
    ghost var now := iter.Done();
    progress', done' := NoteProgress(iter, progress, done);
    all' := TakeOne(iter, all);
    more := iter.HasNext();
    TracksLater(iter.totalIters, now, done', progress', iter.Done());
  }

  method NoteProgress(iter: MultiIter, progress: seq<Option<real>>, ghost done: seq<int>)
    returns (progress': seq<Option<real>>, ghost done': seq<int>)
    requires iter.Valid() && Tracks(iter.totalIters, iter.Done(), done, progress)
    ensures |progress'| == |progress| + 1 && Tracks(iter.totalIters, iter.Done(), done', progress')
  {
    var p := iter.Progress();
    progress', done' := progress + [p], done + [iter.Done()];
    TracksMore(iter.totalIters, iter.Done(), done, progress);
  }

  method TakeOne(iter: MultiIter, all: seq<Entry>) returns (more: seq<Entry>)
    requires iter.Valid() && iter.Ready() && !iter.interrupted
    modifies iter`currentIter
    ensures iter.Valid() && iter.Done() == old(iter.Done()) && |more| == |all| + 1
    ensures more + iter.Remaining() == all + old(iter.Remaining()) && |iter.Remaining()| < old(|iter.Remaining()|)
  {
    var e := iter.Next();
    more := all + [e.value];
  }

  ghost predicate NeverBack(progress: seq<Option<real>>) {
    forall i, j :: 0 <= i < j < |progress| ==>
      progress[i].Some? && progress[j].Some? && 0.0 <= progress[i].value <= progress[j].value <= 100.0
  }

  lemma AllProgress(total: nat, last: int, done: seq<int>, progress: seq<Option<real>>)
    requires Tracks(total, last, done, progress) && last <= total && (progress == [] || 0 < total)
    ensures NeverBack(progress)
  {
    forall i, j | 0 <= i < j < |progress|
      ensures progress[i].Some? && progress[j].Some? && 0.0 <= progress[i].value <= progress[j].value <= 100.0
    {
      PercentGrows(total, done[i], done[j]);
    }
  }
}
