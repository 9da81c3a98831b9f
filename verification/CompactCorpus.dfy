/** The compact corpus store: a writer that appends entries to a compressed data file and an index, and the reader
    that finds them again. */
module CompactCorpora {
  import opened Base64
  import opened Chunking
  import opened CompactIndex
  import Container
  import opened DzHeaders
  import opened DzIstreamBufs
  import opened DzOstreamBufs
  import opened Wrappers

  /** What the writer stores, appended one by one. */
  class CompactCorpusWriter {
    const data: DzOstreamBuf // d_dataStream
    var index: string // d_indexStream
    var offset: nat // d_offset

    ghost var entries: seq<Record>

    ghost predicate Valid()
      reads this, data, data.buffer
    {
      && data.Valid() && data.written == Flat(entries)
      && index == IndexText(Items(entries))
      && offset == |Flat(entries)| < WORD
    }

    constructor (codec: Codec, chunkLen: nat)
      requires 0 < chunkLen
      ensures Valid() && entries == [] && fresh(data) && fresh(data.buffer)
      ensures data.codec == codec && data.buffer.Length == chunkLen
    {
      data := new DzOstreamBuf(codec, chunkLen);
      index, offset, entries := "", 0, [];
    }

    /** Append one entry. */
    method WriteEntry(name: string, bytes: seq<byte>)
      requires Valid() && |Flat(entries)| + |bytes| < WORD
      modifies this, data, data.buffer
      ensures Valid() && entries == old(entries) + [Record(name, bytes)]
      ensures data.written == old(data.written) + bytes
      ensures index == old(index) + name + "\t" + Numeral64(|old(data.written)|) + "\t" + Numeral64(|bytes|) + "\n"
    {
      ghost var e := Record(name, bytes);
      ItemsSnoc(entries, e);
      LineText(index, name, Numeral64(offset), Numeral64(|bytes|));
      var n := data.Xsputn(bytes);
      var offset64 := Encode(offset);
      var size64 := Encode(|bytes|);
      var line := name + "\t" + offset64 + "\t" + size64;
      assert line == Line(IndexItem(name, offset, |bytes|));
      index := index + line + ['\n'];
      offset := offset + |bytes|;
      entries := entries + [e];
    }

    /** The destructor: closes both files. */
    method Close(mtime: seq<byte>, crc: seq<byte>) returns (file: seq<byte>, indexFile: string)
      requires Valid() && |mtime| == 4
      modifies data
      ensures file == Container.File(mtime, data.buffer.Length,
                                     Container.Deflated(data.codec, Chunks(Flat(entries), data.buffer.Length)),
                                     data.codec.finish, Container.Trailer(crc, |Flat(entries)|))
      ensures indexFile == IndexText(Items(entries))
    {
      file := data.Close(mtime, crc);
      indexFile := index;
    }
  }

  lemma LineText(before: string, name: string, offset: string, size: string)
    ensures before + (name + "\t" + offset + "\t" + size) + ['\n'] == before + name + "\t" + offset + "\t" + size + "\n"
  {
  }

  lemma ItemsSnoc(entries: seq<Record>, e: Record)
    ensures var item := IndexItem(e.name, |Flat(entries)|, |e.data|);
            Flat(entries + [e]) == Flat(entries) + e.data && Items(entries + [e]) == Items(entries) + [item]
            && IndexText(Items(entries + [e])) == IndexText(Items(entries)) + Line(item) + ['\n']
  {
    assert (entries + [e])[..|entries|] == entries;
    var item := IndexItem(e.name, |Flat(entries)|, |e.data|);
    IndexTextSnoc(Items(entries), item);
  }

  datatype Opening = Opened | BadData(error: OpenError) | BadIndex
  datatype Reading = Read(bytes: seq<byte>) | UnknownData

  /** One line of the index. */
  method ReadItem(line: string) returns (item: Option<IndexItem>)
    ensures item == ParseLine(line)
  {
    var name, fields := line[..Until(line, '\t')], After(line, '\t');
    var offset64, size64 := fields[..Until(fields, '\t')], After(fields, '\t');
    var offset := Decode(offset64);
    if offset.Err? {
      return None;
    }
    var size := Decode(size64);
    if size.Err? {
      return None;
    }
    return Some(IndexItem(name, offset.value, size.value));
  }

  /** An entry can be read in full if no chunk that starts within it has 0xff as its first byte. */
  ghost predicate Readable(flat: seq<byte>, n: nat, item: IndexItem) {
    NoEndBefore(flat, n, item.offset, true, item.offset + item.size)
  }

  /** What a read of a whole entry delivers: all its data, or what comes before the first chunk that looks like
      the end, and zeros for the rest, which is never the data. */
  ghost predicate Delivers(flat: seq<byte>, n: nat, item: IndexItem, data: seq<byte>, bytes: seq<byte>, failed: bool) {
    && |bytes| == |data|
    && (failed <==> !Readable(flat, n, item))
    && (bytes == data <==> !failed)
  }

  class CompactCorpusReader {
    const stream: DzIstreamBuf // d_dataStream
    var failed: bool // its failbit
    var indices: seq<IndexItem> // d_indices
    var namedIndices: map<string, IndexItem> // d_namedIndices

    constructor (codec: Codec, file: seq<byte>)
      ensures fresh(stream) && fresh(stream.buffer) && stream.codec == codec && stream.file == file
      ensures stream.fpos == 0 && stream.chunks == [] && !failed && indices == []
    {
      stream := new DzIstreamBuf(codec, file);
      failed, indices, namedIndices := false, [], map[];
    }

    /** Read the index line by line. */
    method ReadIndex(text: string) returns (ok: bool)
      modifies this`indices, this`namedIndices
      ensures ok <==> ParseIndex(text).Some?
      ensures ok ==> indices == ParseIndex(text).value && namedIndices == Named(indices)
    {
      indices, namedIndices := [], map[];
      var rest := text;
      ghost var done := [];
      while rest != ""
        invariant Lines(text) == done + Lines(rest)
        invariant ParseLines(done) == Some(indices) && namedIndices == Named(indices)
        decreases |rest|
      {
        var line := rest[..Until(rest, '\n')];
        NextLine(text, done, rest);
        rest := After(rest, '\n');
        var item := ReadItem(line);
        ParseLinesSnoc(done, line);
        done := done + [line];
        if item.None? {
          ParseLinesStops(done, Lines(rest));
          return false;
        }
        NamedSnoc(indices, item.value);
        indices := indices + [item.value];
        namedIndices := namedIndices[item.value.name := item.value];
      }
      assert Lines("") == [] && done + [] == done;
      return true;
    }

    /** Open both files: the container first, then the index. */
    method Open(text: string) returns (r: Opening)
      requires stream.fpos == 0 && stream.chunks == []
      modifies this, stream
      ensures failed == old(failed)
      ensures fresh(stream.buffer) || stream.buffer == old(stream.buffer)
      ensures match ParseHeader(stream.file)
              case Failed(e) => r == BadData(e)
              case Done(layout) =>
                r == (if ParseIndex(text).Some? then Opened else BadIndex)
                && stream.curChunk == -1 && stream.dataOffset == layout.dataOffset && stream.Took(layout.fields, [])
      ensures r == Opened ==> ParseIndex(text) == Some(indices) && namedIndices == Named(indices)
    {
      var outcome := stream.Open();
      if outcome.Fail? {
        return BadData(outcome.error);
      }
      var ok := ReadIndex(text);
      r := if ok then Opened else BadIndex;
    }

    /** The reader holds these entries, cut into these chunks. */
    ghost predicate Holds(entries: seq<Record>, raws: seq<seq<byte>>)
      reads this, stream, stream.buffer
    {
      && stream.Reads(raws) && Flatten(raws) == Flat(entries) && |Flat(entries)| < TWO_63
      && indices == Items(entries) && namedIndices == Named(Items(entries))
    }

    /** As many as there were writes, names written again included. */
    method GetSize(ghost entries: seq<Record>, ghost raws: seq<seq<byte>>) returns (n: nat)
      requires Holds(entries, raws)
      ensures n == |entries|
    {
      n := |indices|;
    }

    /** All entries, in the order in which they were written. */
    method GetEntries(ghost entries: seq<Record>, ghost raws: seq<seq<byte>>) returns (iter: IndexIter)
      requires Holds(entries, raws)
      ensures fresh(iter) && iter.Valid() && iter.iter == 0 && |iter.items| == |entries|
      ensures forall i :: 0 <= i < |entries| ==> iter.items[i].name == entries[i].name
    {
      iter := new IndexIter(indices);
      forall i | 0 <= i < |entries| ensures Items(entries)[i].name == entries[i].name {
        ItemIsSlice(entries, i);
      }
    }

    /** Read the entry with a name: that of the last entry written under it. */
    method ReadEntry(name: string, ghost entries: seq<Record>, ghost raws: seq<seq<byte>>) returns (r: Reading)
      requires Holds(entries, raws)
      requires var i := LastIndex(entries, name);
               0 <= i && entries[i].data == [] ==> Seekable(raws, stream.chunkLen, Items(entries)[i].offset)
      modifies this`failed, stream, stream.buffer
      ensures Holds(entries, raws) && stream.buffer == old(stream.buffer)
      ensures r == UnknownData <==> forall i :: 0 <= i < |entries| ==> entries[i].name != name
      ensures r == UnknownData || old(failed) ==> failed == old(failed)
      ensures r.Read? && old(failed) ==> r.bytes == Zeros(|entries[LastIndex(entries, name)].data|)
      ensures r.Read? && !old(failed) ==>
                var i := LastIndex(entries, name);
                Delivers(Flat(entries), stream.chunkLen, Items(entries)[i], entries[i].data, r.bytes, failed)
    {
      NamedIsLast(entries, name);
      if name !in namedIndices {
        return UnknownData;
      }
      var item := namedIndices[name];
      ghost var i := LastIndex(entries, name);
      ItemIsSlice(entries, i);
      var bytes := ReadExtent(item, raws, entries[i].data);
      r := Read(bytes);
    }

    /** Read the extent an item describes into a buffer of zeros. */
    method ReadExtent(item: IndexItem, ghost raws: seq<seq<byte>>, ghost data: seq<byte>) returns (bytes: seq<byte>)
      requires stream.Reads(raws) && item.offset + item.size <= |Flatten(raws)| < TWO_63
      requires item.size == 0 ==> Seekable(raws, stream.chunkLen, item.offset)
      requires data == Flatten(raws)[item.offset..item.offset + item.size]
      modifies this`failed, stream, stream.buffer
      ensures stream.Reads(raws) && stream.chunkLen == old(stream.chunkLen) && stream.buffer == old(stream.buffer)
      ensures old(failed) ==> failed && bytes == Zeros(item.size)
      ensures !old(failed) ==> Delivers(Flatten(raws), stream.chunkLen, item, data, bytes, failed)
    {
      bytes := Zeros(item.size);
      if !failed {
        var dest := ReadAt(item.offset, item.size, raws);
        bytes := dest + bytes[|dest|..];
        failed := |dest| < item.size;
        ReadDelivers(Flatten(raws), stream.chunkLen, item, dest);
      }
    }

    /** Seek to a position. */
    method SeekInData(offset: nat, ghost raws: seq<seq<byte>>)
      requires stream.Reads(raws) && |Flatten(raws)| < TWO_63 && Seekable(raws, stream.chunkLen, offset)
      modifies stream, stream.buffer
      ensures stream.Reads(raws) && stream.chunkLen == old(stream.chunkLen) && stream.buffer == old(stream.buffer)
      ensures stream.Position() == offset && (offset < |Flatten(raws)| ==> stream.gptr < stream.egptr)
    {
      stream.PositionInData(raws);
      var pos := stream.Seekoff(offset, Beg, raws);
      if offset < |Flatten(raws)| {
        stream.BytesLeft(raws);
      }
    }

    /** Seek, then read. */
    method ReadAt(offset: nat, size: nat, ghost raws: seq<seq<byte>>) returns (dest: seq<byte>)
      requires stream.Reads(raws) && offset + size <= |Flatten(raws)| < TWO_63
      requires size == 0 ==> Seekable(raws, stream.chunkLen, offset)
      modifies stream, stream.buffer
      ensures stream.Reads(raws) && stream.chunkLen == old(stream.chunkLen) && stream.buffer == old(stream.buffer)
      ensures offset + |dest| <= |Flatten(raws)| && dest == Flatten(raws)[offset..offset + |dest|]
      ensures ReadEnds(Flatten(raws), stream.chunkLen, offset, true, offset + size, offset + |dest|)
    {
      ghost var flat := Flatten(raws);
      if size != 0 {
        SeekableWithin(raws, stream.chunkLen, offset);
      }
      SeekInData(offset, raws);
      dest := stream.Xsgetn(size, raws, flat, offset);
    }
  }

  /** The iterator over the items of a reader; entries come without contents. */
  class IndexIter {
    const items: seq<IndexItem>
    var iter: nat // d_iter; the end is d_end

    ghost predicate Valid()
      reads this
    {
      iter <= |items|
    }

    constructor (items: seq<IndexItem>)
      ensures Valid() && this.items == items && iter == 0
    {
      this.items, iter := items, 0;
    }

    method HasNext() returns (r: bool)
      requires Valid()
      ensures r <==> iter < |items|
    {
      r := iter != |items|;
    }

    method Next() returns (name: string)
      requires Valid() && iter < |items|
      modifies this
      ensures Valid() && iter == old(iter) + 1 && name == items[old(iter)].name
    {
      name := items[iter].name;
      iter := iter + 1;
    }
  }

  /** Every entry can be read in full. */
  ghost predicate AllReadable(entries: seq<Record>, n: nat) {
    forall i :: 0 <= i < |entries| ==> Readable(Flat(entries), n, Items(entries)[i])
  }

  /** Data without the byte 0xff, such as any UTF-8 text, can always be read in full. */
  lemma TextIsReadable(entries: seq<Record>, n: nat)
    requires forall i :: 0 <= i < |entries| ==> 0xff !in entries[i].data
    ensures AllReadable(entries, n) && 0xff !in Flat(entries)
  {
    NoLimit(entries);
  }

  /** An entry across a chunk that starts with 0xff, here the one behind n other bytes, cannot. */
  lemma LimitIsUnreadable(n: nat, name: string)
    requires 0 < n
    ensures !AllReadable([Record(name, Zeros(n) + [0xff])], n)
  {
    var entries := [Record(name, Zeros(n) + [0xff])];
    assert entries[..0] == [] && Flat(entries) == [] + entries[0].data;
    ItemIsSlice(entries, 0);
    assert LooksLikeEnd(Flat(entries), n, 0, true, n);
    assert !Readable(Flat(entries), n, Items(entries)[0]);
  }

  lemma {:induction false} NoLimit(entries: seq<Record>)
    requires forall i :: 0 <= i < |entries| ==> 0xff !in entries[i].data
    ensures 0xff !in Flat(entries)
  {
    if entries == [] {
    } else {
      NoLimit(entries[..|entries| - 1]);
    }
  }

  function Zeros(n: nat): seq<byte> {
    seq(n, _ => 0)
  }

  /** Where a read ends decides whether it delivers. */
  lemma ReadDelivers(flat: seq<byte>, n: nat, item: IndexItem, dest: seq<byte>)
    requires item.offset + item.size <= |flat|
    requires |dest| <= item.size && dest == flat[item.offset..item.offset + |dest|]
    requires ReadEnds(flat, n, item.offset, true, item.offset + item.size, item.offset + |dest|)
    ensures var data, bytes := flat[item.offset..item.offset + item.size], dest + Zeros(item.size)[|dest|..];
            Delivers(flat, n, item, data, bytes, |dest| < item.size)
  {
    var k, bytes := |dest|, dest + Zeros(item.size)[|dest|..];
    if k < item.size {
      assert LooksLikeEnd(flat, n, item.offset, true, item.offset + k);
      assert bytes[k] == 0 && flat[item.offset..item.offset + item.size][k] == 0xff;
    } else {
      assert bytes == dest;
    }
  }

  lemma NextLine(text: string, done: seq<string>, rest: string)
    requires Lines(text) == done + Lines(rest) && rest != ""
    ensures Lines(text) == done + [rest[..Until(rest, '\n')]] + Lines(After(rest, '\n'))
  {
  }

  lemma NamedSnoc(items: seq<IndexItem>, item: IndexItem)
    ensures Named(items + [item]) == Named(items)[item.name := item]
  {
    assert (items + [item])[..|items|] == items;
  }

  /** The chunks the writer leaves behind can be told apart by the reader: their number fits the header. */
  ghost predicate Recoverable(flat: seq<byte>, n: nat) {
    0 < n && var m := |Chunks(flat, n)|; m < 65536 && m != 32763 && m != 65531
  }

  /** Close a writer and open a reader on the two files it leaves: the reader holds all entries. */
  method CloseAndReopen(writer: CompactCorpusWriter, mtime: seq<byte>, crc: seq<byte>)
    returns (reader: CompactCorpusReader, ghost raws: seq<seq<byte>>)
    requires writer.Valid() && |mtime| == 4
    requires writer.data.buffer.Length < 65536
    requires var n := writer.data.buffer.Length; Faithful(writer.data.codec, n, Chunks(Flat(writer.entries), n))
    requires Recoverable(Flat(writer.entries), writer.data.buffer.Length)
    requires |Flat(writer.entries)| < TWO_63
    requires forall i :: 0 <= i < |writer.entries| ==> Clean(writer.entries[i].name)
    modifies writer.data
    ensures fresh(reader) && fresh(reader.stream) && fresh(reader.stream.buffer)
    ensures reader.Holds(writer.entries, raws) && !reader.failed
    ensures reader.stream.chunkLen == writer.data.buffer.Length
  {
    ghost var entries, n := writer.entries, writer.data.buffer.Length;
    var file, indexFile;
    ghost var layout;
    file, indexFile, raws, layout := CloseStored(writer, mtime, crc);
    reader := OpenStored(writer.data.codec, file, indexFile, n, layout, Items(entries), raws);
  }

  /** Close a writer; what it leaves is what a reader can be opened on. */
  method CloseStored(writer: CompactCorpusWriter, mtime: seq<byte>, crc: seq<byte>)
    returns (file: seq<byte>, indexFile: string, ghost raws: seq<seq<byte>>, ghost layout: Layout)
    requires writer.Valid() && |mtime| == 4
    requires writer.data.buffer.Length < 65536
    requires var n := writer.data.buffer.Length; Faithful(writer.data.codec, n, Chunks(Flat(writer.entries), n))
    requires Recoverable(Flat(writer.entries), writer.data.buffer.Length)
    requires forall i :: 0 <= i < |writer.entries| ==> Clean(writer.entries[i].name)
    modifies writer.data
    ensures Chunked(raws, writer.data.buffer.Length) && Flatten(raws) == Flat(writer.entries)
    ensures ParseHeader(file) == Done(layout) && LastLength(layout.fields) == Some(writer.data.buffer.Length)
    ensures TableStored(writer.data.codec, file, layout.dataOffset, AllChunks(layout.fields), raws)
    ensures ParseIndex(indexFile) == Some(Items(writer.entries))
  {
    file, indexFile := writer.Close(mtime, crc);
    raws, layout := DataLeft(file, writer.data.codec, mtime, writer.data.buffer.Length, Flat(writer.entries),
                             Container.Trailer(crc, |Flat(writer.entries)|));
    IndexLeft(writer.entries);
  }

  lemma DataLeft(file: seq<byte>, codec: Codec, mtime: seq<byte>, n: nat, flat: seq<byte>, trailer: seq<byte>)
    returns (raws: seq<seq<byte>>, layout: Layout)
    requires 0 < n < 65536 && Faithful(codec, n, Chunks(flat, n)) && |mtime| == 4 && Recoverable(flat, n)
    requires file == Container.File(mtime, n, Container.Deflated(codec, Chunks(flat, n)), codec.finish, trailer)
    ensures Chunked(raws, n) && Flatten(raws) == flat
    ensures ParseHeader(file) == Done(layout) && LastLength(layout.fields) == Some(n)
    ensures TableStored(codec, file, layout.dataOffset, AllChunks(layout.fields), raws)
  {
    raws := Chunks(flat, n);
    ChunksAreChunked(flat, n);
    layout := ChunksLeft(file, codec, mtime, n, raws, trailer);
  }

  lemma ChunksLeft(file: seq<byte>, codec: Codec, mtime: seq<byte>, n: nat, raws: seq<seq<byte>>, trailer: seq<byte>)
    returns (layout: Layout)
    requires 0 < n < 65536 && Faithful(codec, n, raws) && Chunked(raws, n) && |mtime| == 4
    requires |raws| < 65536 && |raws| != 32763 && |raws| != 65531
    requires file == Container.File(mtime, n, Container.Deflated(codec, raws), codec.finish, trailer)
    ensures ParseHeader(file) == Done(layout) && LastLength(layout.fields) == Some(n)
    ensures TableStored(codec, file, layout.dataOffset, AllChunks(layout.fields), raws)
  {
    var sizes, end := Container.Sizes(Container.Deflated(codec, raws)), 22 + 2 * |raws|;
    assert |sizes| == |raws|;
    StoredTable(file, codec, mtime, n, raws, trailer);
    layout := LayoutLeft(file, codec, n, sizes, end, raws);
  }

  lemma LayoutLeft(file: seq<byte>, codec: Codec, n: nat, sizes: seq<nat>, end: nat, raws: seq<seq<byte>>)
    returns (layout: Layout)
    requires HeaderAt(file) && InfoAt(file, 10, n, sizes) && end == 22 + 2 * |sizes|
    requires |sizes| < 65536 && |sizes| != 32763 && |sizes| != 65531
    requires TableStored(codec, file, end, Table(sizes), raws)
    ensures ParseHeader(file) == Done(layout) && LastLength(layout.fields) == Some(n)
    ensures TableStored(codec, file, layout.dataOffset, AllChunks(layout.fields), raws)
  {
    layout := WholeLayout(file, n, sizes);
    SameTable(codec, file, end, Table(sizes), layout.dataOffset, AllChunks(layout.fields), raws);
  }

  lemma SameTable(codec: Codec, file: seq<byte>, end: nat, table: seq<DzChunk>, offset: nat, chunks: seq<DzChunk>,
                  raws: seq<seq<byte>>)
    requires offset == end && chunks == table && TableStored(codec, file, end, table, raws)
    ensures TableStored(codec, file, offset, chunks, raws)
  {
  }

  lemma IndexLeft(entries: seq<Record>)
    requires |Flat(entries)| < WORD && forall i :: 0 <= i < |entries| ==> Clean(entries[i].name)
    ensures ParseIndex(IndexText(Items(entries))) == Some(Items(entries))
  {
    ItemsWritable(entries);
    IndexRoundTrip(Items(entries));
  }

  /** Open a reader on a container and an index that fit together: the header lists chunks that lie where it says. */
  method OpenStored(codec: Codec, file: seq<byte>, indexFile: string, ghost n: nat, ghost layout: Layout,
                    ghost items: seq<IndexItem>, ghost raws: seq<seq<byte>>)
    returns (reader: CompactCorpusReader)
    requires ParseHeader(file) == Done(layout) && LastLength(layout.fields) == Some(n)
    requires TableStored(codec, file, layout.dataOffset, AllChunks(layout.fields), raws)
    requires 0 < n && Chunked(raws, n) && ParseIndex(indexFile) == Some(items)
    ensures fresh(reader) && fresh(reader.stream) && fresh(reader.stream.buffer)
    ensures reader.stream.Reads(raws) && reader.stream.chunkLen == n && !reader.failed
    ensures reader.indices == items && reader.namedIndices == Named(items)
  {
    reader := new CompactCorpusReader(codec, file);
    ghost var table := AllChunks(layout.fields);
    assert [] + table == table;
    var opening := reader.Open(indexFile);
  }
}
