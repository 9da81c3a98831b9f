/** The chunk-caching reader: it parses the container header, seeks by chunk, and delivers the flat data. */
module DzIstreamBufs {
  import opened Chunking
  import opened Container
  import opened DzHeaders
  import opened Wrappers

  datatype SeekDir = Beg | Cur | End

  /** A char is signed: this is what a byte compares as. */
  function CharValue(b: byte): int {
    if b < 128 then b as int else b as int - 256
  }

  /** The compressed form of a chunk lies where the table says. */
  ghost predicate ChunkStored(codec: Codec, file: seq<byte>, dataOffset: nat, chunk: DzChunk, raw: seq<byte>) {
    var start := dataOffset + chunk.offset;
    start + chunk.size <= |file| && codec.inflate(file[start..start + chunk.size]) == Some(raw)
  }

  ghost predicate TableStored(codec: Codec, file: seq<byte>, dataOffset: nat, chunks: seq<DzChunk>,
                              raws: seq<seq<byte>>) {
    |chunks| == |raws| && forall k :: 0 <= k < |chunks| ==> ChunkStored(codec, file, dataOffset, chunks[k], raws[k])
  }

  /** Loading the chunk at position b while reading from start on is mistaken for the end of the data: its first
      byte compares equal to EOF. A chunk that is already loaded at the start is not looked at again. */
  ghost predicate LooksLikeEnd(data: seq<byte>, n: nat, start: int, loaded: bool, b: int) {
    0 <= b < |data| && Boundary(n, b) && data[b] == 0xff && (b != start || !loaded)
  }

  ghost predicate NoEndBefore(data: seq<byte>, n: nat, start: int, loaded: bool, end: int) {
    forall b :: start <= b < end ==> !LooksLikeEnd(data, n, start, loaded, b)
  }

  lemma NoEndStep(data: seq<byte>, n: nat, start: int, loaded: bool, q: int, k: nat)
    requires NoEndBefore(data, n, start, loaded, q) && 0 <= q && q + k <= |data|
    requires forall b :: q < b < q + k ==> !Boundary(n, b)
    requires 0 < k ==> data[q] != 0xff || (q == start && loaded)
    ensures NoEndBefore(data, n, start, loaded, q + k)
  {
  }

  /** Where a read from start that wants to reach goal ends. */
  ghost predicate ReadEnds(data: seq<byte>, n: nat, start: int, loaded: bool, goal: int, end: int) {
    && start <= end <= goal <= |data|
    && NoEndBefore(data, n, start, loaded, end)
    && (end < goal ==> LooksLikeEnd(data, n, start, loaded, end))
  }

  const TWO_63: int := 0x8000_0000_0000_0000
  const TWO_64: int := 0x1_0000_0000_0000_0000

  lemma WrapsBack(x: int, g: nat)
    requires 0 <= x + g < TWO_64
    ensures (x % TWO_64 + g) % TWO_64 == x + g
  {
  }

  /** Positions the program can seek to: within a chunk that exists, or at its end. */
  ghost predicate Seekable(raws: seq<seq<byte>>, n: nat, t: int) {
    0 < n && 0 <= t && t / n < |raws| && t % n <= |raws[t / n]|
  }

  /** Every position within the data can be sought. */
  lemma SeekableWithin(raws: seq<seq<byte>>, n: nat, t: nat)
    requires 0 < n && Chunked(raws, n) && t < |Flatten(raws)|
    ensures Seekable(raws, n, t)
  {
    var last := |raws| - 1;
    var start, size := last * n, |raws[last]|;
    assert start + size == |Flatten(raws)| && size <= n by {
      ChunkStands(raws, n, last);
    }
    ChunkOf(t, n, last, start, size);
  }

  /** The end of the data can be sought just when there is no data or the last chunk is not full. */
  lemma EndSeekable(raws: seq<seq<byte>>, n: nat)
    requires 0 < n && Chunked(raws, n)
    ensures Seekable(raws, n, |Flatten(raws)|) <==> Flatten(raws) == [] || |Flatten(raws)| % n != 0
  {
    var last, end := |raws| - 1, |Flatten(raws)|;
    var size := |raws[last]|;
    assert end == last * n + size && size <= n by {
      ChunkStands(raws, n, last);
    }
    EndDivided(n, last, size);
    EndWithin(raws, n, end, last, size);
    if Flatten(raws) == [] {
      assert last * n == 0 && size == 0;
    }
  }

  lemma EndDivided(n: int, last: int, size: int)
    requires 0 < n && 0 <= last && 0 <= size <= n
    ensures var end := last * n + size;
            if size == n then end / n == last + 1 && end % n == 0 else end / n == last && end % n == size
  {
    if size == n {
      assert (last + 1) * n == last * n + n;
      ChunkInterior(last + 1, n, 0);
    } else {
      ChunkInterior(last, n, size);
    }
  }

  lemma EndWithin(raws: seq<seq<byte>>, n: nat, end: int, last: int, size: int)
    requires 0 < n && Chunked(raws, n) && last == |raws| - 1 && size == |raws[last]| && 0 <= end
    requires if size == n then end / n == last + 1 && end % n == 0 else end / n == last && end % n == size
    ensures Seekable(raws, n, end) <==> size < n
    ensures end % n != 0 <==> 0 < size < n
    ensures size == 0 ==> last == 0
  {
  }

  lemma ChunkOf(t: int, n: int, last: int, start: int, size: int)
    requires 0 < n && 0 <= t < start + size && start == last * n && 0 <= size <= n && 0 <= last
    ensures 0 <= t / n <= last && 0 <= t % n < n && (t / n == last ==> t % n <= size)
  {
    var k, g := t / n, t % n;
    var below := k * n;
    assert t == below + g;
    assert (last + 1) * n == start + n;
    if last < k {
      MultiplyUp(last + 1, k, n);
    }
  }

  lemma MultiplyUp(a: int, b: int, n: int)
    requires a <= b && 0 <= n
    ensures a * n <= b * n
  {
  }

  lemma StartOfTarget(t: nat, n: nat)
    requires 0 < n
    ensures 0 <= t / n && 0 <= t % n && Start(t / n, n) + t % n == t
  {
    DivModLaw(t, n);
    StartIsProduct(t / n, n);
  }

  /** What a container file written for some chunks offers the reader: the header it parses, and the chunks at the
      positions the running sum of their sizes gives. */
  lemma StoredTable(file: seq<byte>, codec: Codec, mtime: seq<byte>, n: nat, raws: seq<seq<byte>>, trailer: seq<byte>)
    requires 0 < n < 65536 && Faithful(codec, n, raws) && Chunked(raws, n) && |mtime| == 4
    requires file == File(mtime, n, Deflated(codec, raws), codec.finish, trailer)
    ensures HeaderAt(file) && InfoAt(file, 10, n, Sizes(Deflated(codec, raws)))
    ensures TableStored(codec, file, 22 + 2 * |raws|, Table(Sizes(Deflated(codec, raws))), raws)
  {
    assert HeaderAt(file) && InfoAt(file, 10, n, Sizes(Deflated(codec, raws))) by {
      StoredHeader(file, codec, mtime, n, raws, trailer);
    }
    assert TableStored(codec, file, 22 + 2 * |raws|, Table(Sizes(Deflated(codec, raws))), raws) by {
      StoredChunks(file, codec, mtime, n, raws, trailer);
    }
  }

  /** A file the writer leaves is opened with all its chunks for these numbers of chunks and no others. */
  lemma StoredExactly(file: seq<byte>, codec: Codec, mtime: seq<byte>, n: nat, raws: seq<seq<byte>>, trailer: seq<byte>)
    requires 0 < n < 65536 && Faithful(codec, n, raws) && Chunked(raws, n) && |mtime| == 4
    requires file == File(mtime, n, Deflated(codec, raws), codec.finish, trailer)
    ensures ParseHeader(file).Done?
    ensures AllChunks(ParseHeader(file).value.fields) == Table(Sizes(Deflated(codec, raws)))
            <==> |raws| < 65536 && |raws| != 32763 && |raws| != 65531
  {
    StoredHeader(file, codec, mtime, n, raws, trailer);
    RecoveredExactly(file, n, Sizes(Deflated(codec, raws)));
  }

  lemma StoredHeader(file: seq<byte>, codec: Codec, mtime: seq<byte>, n: nat, raws: seq<seq<byte>>, trailer: seq<byte>)
    requires 0 < n < 65536 && Faithful(codec, n, raws) && Chunked(raws, n) && |mtime| == 4
    requires file == File(mtime, n, Deflated(codec, raws), codec.finish, trailer)
    ensures HeaderAt(file) && InfoAt(file, 10, n, Sizes(Deflated(codec, raws)))
  {
    var z := Deflated(codec, raws);
    FileParts(file, mtime, n, z, codec.finish, trailer);
    DeflatedFits(codec, n, raws);
    SeenByReader(file, mtime, n, Sizes(z), Flatten(z) + (codec.finish + trailer));
  }

  lemma StoredChunks(file: seq<byte>, codec: Codec, mtime: seq<byte>, n: nat, raws: seq<seq<byte>>, trailer: seq<byte>)
    requires 0 < n && Faithful(codec, n, raws) && Chunked(raws, n) && |mtime| == 4
    requires file == File(mtime, n, Deflated(codec, raws), codec.finish, trailer)
    ensures TableStored(codec, file, 22 + 2 * |raws|, Table(Sizes(Deflated(codec, raws))), raws)
  {
    assert HoldsAt(file, 22 + 2 * |raws|, Flatten(Deflated(codec, raws))) by {
      FileHolds(file, mtime, n, Deflated(codec, raws), codec.finish, trailer);
    }
    ChunksStored(file, codec, n, raws, 22 + 2 * |raws|);
  }

  lemma FileHolds(file: seq<byte>, mtime: seq<byte>, n: nat, z: seq<seq<byte>>, finish: seq<byte>, trailer: seq<byte>)
    requires |mtime| == 4 && file == File(mtime, n, z, finish, trailer)
    ensures HoldsAt(file, 22 + 2 * |z|, Flatten(z))
  {
    var head, rest := Header(mtime) + ChunkInfo(n, Sizes(z)), finish + trailer;
    FileParts(file, mtime, n, z, finish, trailer);
    MiddleHeld(file, head, Flatten(z), rest);
  }

  lemma MiddleHeld(file: seq<byte>, head: seq<byte>, bytes: seq<byte>, rest: seq<byte>)
    requires file == head + bytes + rest
    ensures HoldsAt(file, |head|, bytes)
  {
    assert file[|head|..] == bytes + rest;
  }

  lemma FileParts(file: seq<byte>, mtime: seq<byte>, n: nat, z: seq<seq<byte>>, finish: seq<byte>, trailer: seq<byte>)
    requires |mtime| == 4 && file == File(mtime, n, z, finish, trailer)
    ensures var head := Header(mtime) + ChunkInfo(n, Sizes(z));
            |head| == 22 + 2 * |z| && file == head + Flatten(z) + (finish + trailer)
            && file == head + (Flatten(z) + (finish + trailer))
  {
    var head := Header(mtime) + ChunkInfo(n, Sizes(z));
    assert file == head + (Flatten(z) + finish) + trailer;
    RegroupParts(head, Flatten(z), finish, trailer);
  }

  lemma RegroupParts(a: seq<byte>, b: seq<byte>, c: seq<byte>, d: seq<byte>)
    ensures a + (b + c) + d == a + b + (c + d) == a + (b + (c + d))
  {
  }

  lemma SeenByReader(file: seq<byte>, mtime: seq<byte>, n: nat, sizes: seq<nat>, rest: seq<byte>)
    requires |mtime| == 4 && Small(sizes) && n < 65536 && file == Header(mtime) + ChunkInfo(n, sizes) + rest
    ensures HeaderAt(file) && InfoAt(file, 10, n, sizes)
  {
    PrefixHeld(file, Header(mtime) + ChunkInfo(n, sizes));
    HeldParts(file, 0, Header(mtime), ChunkInfo(n, sizes));
    HeaderHeld(file, mtime);
    InfoHeld(file, 10, n, sizes);
    SmallModulo(n);
  }

  /** Compressed chunks have sizes of 16 bits. */
  lemma DeflatedFits(codec: Codec, n: nat, raws: seq<seq<byte>>)
    requires 0 < n < 65536 && Faithful(codec, n, raws) && Chunked(raws, n)
    ensures Small(Sizes(Deflated(codec, raws)))
  {
    forall i | 0 <= i < |raws| ensures |codec.deflate(raws[i])| < 65536 {
      assert |raws[i]| <= n;
    }
  }

  lemma ChunksStored(file: seq<byte>, codec: Codec, n: nat, raws: seq<seq<byte>>, offset: nat)
    requires 0 < n && Faithful(codec, n, raws) && Chunked(raws, n)
    requires HoldsAt(file, offset, Flatten(Deflated(codec, raws)))
    ensures TableStored(codec, file, offset, Table(Sizes(Deflated(codec, raws))), raws)
  {
    forall k | 0 <= k < |raws|
      ensures ChunkStored(codec, file, offset, Table(Sizes(Deflated(codec, raws)))[k], raws[k])
    {
      OneChunkStored(file, codec, n, raws, offset, k);
    }
  }

  lemma OneChunkStored(file: seq<byte>, codec: Codec, n: nat, raws: seq<seq<byte>>, offset: nat, k: nat)
    requires Faithful(codec, n, raws) && k < |raws| && |raws[k]| <= n
    requires HoldsAt(file, offset, Flatten(Deflated(codec, raws)))
    ensures ChunkStored(codec, file, offset, Table(Sizes(Deflated(codec, raws)))[k], raws[k])
  {
    var z := Deflated(codec, raws);
    var start := offset + Offset(Sizes(z), k);
    assert start + |z[k]| <= |file| && file[start..start + |z[k]|] == z[k] by {
      ChunkPosition(file, offset, z, k);
    }
    assert Table(Sizes(z))[k] == DzChunk(Offset(Sizes(z), k), |z[k]|);
    assert codec.inflate(z[k]) == Some(raws[k]);
  }

  lemma ChunkPosition(file: seq<byte>, offset: nat, z: seq<seq<byte>>, k: nat)
    requires HoldsAt(file, offset, Flatten(z)) && k < |z|
    ensures var start := offset + Offset(Sizes(z), k);
            start + |z[k]| <= |file| && file[start..start + |z[k]|] == z[k]
  {
    OffsetIsPosition(z, k);
    var a, b := Flatten(z[..k]), Flatten(z[k..][1..]);
    assert Flatten(z) == a + (z[k] + b) by {
      assert z[k..][0] == z[k] && Flatten(z[k..]) == z[k] + b;
    }
    HeldParts(file, offset, a, z[k] + b);
    HeldParts(file, offset + |a|, z[k], b);
    HeldSlice(file, offset + |a|, z[k]);
  }

  lemma HeldSlice(file: seq<byte>, p: nat, bytes: seq<byte>)
    requires HoldsAt(file, p, bytes)
    ensures p + |bytes| <= |file| && file[p..p + |bytes|] == bytes
  {
    assert file[p..][..|bytes|] == file[p..p + |bytes|];
  }

  lemma TableGrows(before: seq<DzChunk>, sizes: seq<nat>, i: nat)
    requires i < |sizes|
    ensures Offset(sizes, i + 1) == Offset(sizes, i) + sizes[i]
    ensures before + Table(sizes)[..i] + [DzChunk(Offset(sizes, i), sizes[i])] == before + Table(sizes)[..i + 1]
  {
    TableStep(sizes, i);
    assert before + Table(sizes)[..i] + [DzChunk(Offset(sizes, i), sizes[i])]
        == before + (Table(sizes)[..i] + [DzChunk(Offset(sizes, i), sizes[i])]);
  }

  class DzIstreamBuf {
    const codec: Codec
    const file: seq<byte> // what d_stream reads
    var fpos: nat // ftell(d_stream)
    var header: seq<byte>
    var chunkLen: nat
    var dataOffset: nat
    var curChunk: int
    var chunks: seq<DzChunk>
    var buffer: array<byte> // d_buffer; eback is its start
    var gptr: nat
    var egptr: nat

    constructor (codec: Codec, file: seq<byte>)
      ensures this.codec == codec && this.file == file && fpos == 0 && chunks == [] && fresh(buffer)
    {
      this.codec, this.file := codec, file;
      fpos, header, chunkLen, dataOffset, curChunk, chunks := 0, [], 0, 0, -1, [];
      buffer := new byte[0];
      gptr, egptr := 0, 0;
    }

    method Fgetc() returns (c: Option<byte>)
      modifies this`fpos
      ensures old(fpos) < |file| ==> c == Some(file[old(fpos)]) && fpos == old(fpos) + 1
      ensures old(fpos) >= |file| ==> c == None && fpos == old(fpos)
    {
      if fpos < |file| {
        c := Some(file[fpos]);
        fpos := fpos + 1;
      } else {
        c := None;
      }
    }

    /** fgetc(d_stream) + fgetc(d_stream) * 256. */
    method FgetU16() returns (r: Option<nat>)
      modifies this`fpos
      ensures r == U16At(file, old(fpos)) && fpos >= old(fpos)
      ensures r.Some? ==> fpos == old(fpos) + 2
    {
      var lo := Fgetc();
      var hi := Fgetc();
      r := if lo.Some? && hi.Some? then Some(ReadU16(lo.value, hi.value)) else None;
    }

    /** Check the ten bytes of the gzip header. */
    method ReadHeader() returns (r: Outcome)
      requires fpos == 0
      modifies this`header, this`fpos
      ensures r == CheckHeader(file)
      ensures r == Pass ==> header == file[..10] && fpos == 10
    {
      if |file| < GZ_HEADER_SIZE {
        return Fail(Truncated);
      }
      header := file[..GZ_HEADER_SIZE];
      fpos := GZ_HEADER_SIZE;
      if header[0] != GZ_ID1 || header[1] != GZ_ID2 {
        return Fail(NotGzip);
      }
      if header[2] != GZ_CM_DEFLATE {
        return Fail(UnknownMethod);
      }
      if !HasFlag(header[3], GZ_FLG_EXTRA) {
        return Fail(NoExtraField);
      }
      return Pass;
    }

    /** Read the size of a chunk and note it with its offset. */
    method ReadSize(chunkPos: nat) returns (size: Option<nat>)
      modifies this`fpos, this`chunks
      ensures size == U16At(file, old(fpos))
      ensures size.Some? ==> fpos == old(fpos) + 2 && chunks == old(chunks) + [DzChunk(chunkPos, size.value)]
    {
      size := FgetU16();
      if size.Some? {
        chunks := chunks + [DzChunk(chunkPos, size.value)];
      }
    }

    /** Read the sizes of count chunks and sum up their offsets. */
    method ReadSizes(count: nat) returns (r: Outcome)
      modifies this`fpos, this`chunks
      ensures old(fpos) + 2 * count <= |file| ==>
                r == Pass && fpos == old(fpos) + 2 * count
                && chunks == old(chunks) + Table(SizesFrom(file, old(fpos), count))
      ensures 0 < count && |file| < old(fpos) + 2 * count ==> r == Fail(Truncated)
      ensures count == 0 ==> r == Pass && fpos == old(fpos) && chunks == old(chunks)
    {
      ghost var start := fpos;
      ghost var fits := start + 2 * count <= |file|;
      ghost var sizes := if fits then SizesFrom(file, start, count) else [];
      var chunkPos: nat := 0;
      for i := 0 to count
        invariant fpos == start + 2 * i && (0 < i ==> fpos <= |file|)
        invariant i == 0 ==> chunks == old(chunks)
        invariant fits ==> chunkPos == Offset(sizes, i) && chunks == old(chunks) + Table(sizes)[..i]
      {
        var size := ReadSize(chunkPos);
        if size.None? {
          return Fail(Truncated);
        }
        chunkPos := chunkPos + size.value;
        if fits {
          TableGrows(old(chunks), sizes, i);
        }
      }
      return Pass;
    }

    /** The buffer is set up for chunks of length n, with nothing left to read in it. */
    ghost predicate Loaded(n: nat)
      reads this
    {
      chunkLen == buffer.Length == gptr == egptr == n
    }

    /** The list of chunks in a subfield, behind its length. */
    method ReadChunkList(ghost p: nat) returns (r: Outcome)
      requires fpos == p + 4 <= |file| && file[p] == SI1 && file[p + 1] == SI2
      modifies this
      ensures header == old(header) && (fresh(buffer) || buffer == old(buffer))
      ensures match ParseField(file, p)
              case Done(f) => r == Pass && fpos == p + FieldSize(f) && Loaded(f.n)
                              && chunks == old(chunks) + Table(f.sizes)
              case Failed(e) => r == Fail(e)
    {
      var ver := FgetU16();
      if ver.None? { return Fail(Truncated); }
      if ver.value != 1 { return Fail(UnknownVersion); }
      var len := FgetU16();
      if len.None? { return Fail(Truncated); }
      chunkLen := len.value;
      var count := FgetU16();
      if count.None? { return Fail(Truncated); }
      buffer := new byte[chunkLen];
      gptr, egptr := chunkLen, chunkLen;
      r := ReadSizes(count.value);
    }

    /** What has been taken over from some subfields. */
    ghost predicate Took(fields: seq<Field>, before: seq<DzChunk>)
      reads this
    {
      chunks == before + AllChunks(fields) && (LastLength(fields).Some? ==> Loaded(LastLength(fields).value))
    }

    /** One subfield of the extra field; any but the one with the identification RA is skipped. */
    method ReadSubfield(ghost p: nat) returns (r: Outcome)
      requires fpos == p
      modifies this
      ensures header == old(header) && (fresh(buffer) || buffer == old(buffer))
      ensures match ParseField(file, p)
              case Done(f) => r == Pass && fpos == p + FieldSize(f) && chunks == old(chunks) + ChunksOf(f)
                              && if f.ChunkList? then Loaded(f.n)
                                 else BufferIs(old(buffer), old(chunkLen), old(gptr), old(egptr))
              case Failed(e) => r == Fail(e)
    {
      var si1 := Fgetc();
      var si2 := Fgetc();
      if si1.None? || si2.None? { return Fail(Truncated); }
      var len := FgetU16();
      if len.None? { return Fail(Truncated); }
      if si1.value == SI1 && si2.value == SI2 {
        r := ReadChunkList(p);
      } else {
        fpos := fpos + len.value;
        r := Pass;
        assert chunks + [] == chunks;
      }
    }

    ghost predicate BufferIs(b: array<byte>, n: nat, g: nat, e: nat)
      reads this
    {
      buffer == b && chunkLen == n && gptr == g && egptr == e
    }

    /** Read a subfield behind those that have been taken over. */
    method TakeSubfield(ghost p: nat, ghost fields: seq<Field>, ghost before: seq<DzChunk>) returns (r: Outcome)
      requires fpos == p && Took(fields, before)
      modifies this
      ensures header == old(header) && (fresh(buffer) || buffer == old(buffer))
      ensures match ParseField(file, p)
              case Done(f) => r == Pass && fpos == p + FieldSize(f) && Took(fields + [f], before)
              case Failed(e) => r == Fail(e)
    {
      ghost var parsed := ParseField(file, p);
      r := ReadSubfield(p);
      if parsed.Done? {
        FieldsSnoc(fields, parsed.value);
        ConcatAssociates(before, AllChunks(fields), ChunksOf(parsed.value));
      }
    }

    /** The extra field: subfields up to the length it announces. */
    method ReadExtra() returns (r: Outcome)
      modifies this
      ensures header == old(header) && (fresh(buffer) || buffer == old(buffer))
      ensures match ParseExtra(file, old(fpos))
              case Done(fields) => r == Pass && fpos == old(fpos) + 2 + FieldsSize(fields) && Took(fields, old(chunks))
              case Failed(e) => r == Fail(e)
    {
      ghost var start, before := fpos, chunks;
      var extraLen := FgetU16();
      if extraLen.None? { return Fail(Truncated); }
      var nextField := fpos + extraLen.value;
      ghost var fields: seq<Field> := [];
      ghost var whole := ParseExtra(file, start);
      assert before + [] == before;
      PrependNothing(whole);
      while fpos < nextField
        invariant header == old(header) && (fresh(buffer) || buffer == old(buffer))
        invariant fpos == start + 2 + FieldsSize(fields) && Took(fields, before)
        invariant whole == Prepend(fields, ParseFields(file, fpos, nextField))
        decreases nextField - fpos
      {
        ghost var p := fpos;
        r := TakeSubfield(p, fields, before);
        if r != Pass { return; }
        ghost var f := ParseField(file, p).value;
        PrependTwice(fields, [f], ParseFields(file, fpos, nextField));
        FieldsSnoc(fields, f);
        fields := fields + [f];
      }
      assert fields + [] == fields;
      return Pass;
    }

    /** Skip a string and the zero that ends it; without the zero the program would loop forever. */
    method SkipString() returns (r: Outcome)
      modifies this`fpos
      ensures match TextEnd(file, old(fpos)) case Some(q) => r == Pass && fpos == q case None => r == Fail(Truncated)
    {
      while true
        invariant TextEnd(file, fpos) == TextEnd(file, old(fpos))
        decreases |file| - fpos
      {
        var c := Fgetc();
        if c.None? { return Fail(Truncated); }
        if c.value == 0 { return Pass; }
      }
    }

    method SkipOptional() returns (r: Outcome)
      requires 10 <= |header|
      modifies this`fpos
      ensures match OptionalEnd(file, header[3], old(fpos))
              case Some(q) => r == Pass && fpos == q
              case None => r == Fail(Truncated)
    {
      if HasFlag(header[3], GZ_FLG_NAME) {
        r := SkipString();
        if r != Pass { return; }
      }
      if HasFlag(header[3], GZ_FLG_COMMENT) {
        r := SkipString();
        if r != Pass { return; }
      }
      if HasFlag(header[3], GZ_FLG_HCRC) {
        fpos := fpos + 2;
      }
      return Pass;
    }

    /** The rest of the constructor: parse everything before the compressed data. */
    method Open() returns (r: Outcome)
      requires fpos == 0
      modifies this
      ensures fresh(buffer) || buffer == old(buffer)
      ensures match ParseHeader(file)
              case Done(layout) => r == Pass && curChunk == -1 && dataOffset == layout.dataOffset
                                   && Took(layout.fields, old(chunks))
              case Failed(e) => r == Fail(e)
    {
      ghost var extra := ParseExtra(file, 10);
      r := ReadHeader();
      if r != Pass { return; }
      r := ReadExtra();
      if r != Pass { return; }
      ParsedSoFar(file, extra.value, fpos);
      r := SkipOptional();
      if r != Pass { return; }
      dataOffset := fpos;
      curChunk := -1;
    }

    /** The reader is in step with the chunks its file stores. */
    ghost predicate Reads(raws: seq<seq<byte>>)
      reads this, buffer
    {
      && 0 < chunkLen == buffer.Length && Chunked(raws, chunkLen)
      && TableStored(codec, file, dataOffset, chunks, raws)
      && -1 <= curChunk < |raws| && gptr <= egptr <= chunkLen
      && if curChunk == -1 then gptr == chunkLen else buffer[..egptr] == raws[curChunk]
    }

    /** The position in the flat data, curChunk * chunkLen + gptr. Before any chunk is loaded it is that of a
        chunk -1 with a full buffer behind it: 0. */
    ghost function Position(): int
      reads this
    {
      if -1 <= curChunk then Start(curChunk, chunkLen) + gptr else 0
    }

    /** Load chunk n unless it is the current one. */
    method ReadChunk(n: nat) returns (ok: bool)
      requires n < |chunks| && chunkLen == buffer.Length
      modifies this`fpos, this`gptr, this`egptr, this`curChunk, buffer
      ensures n == old(curChunk) ==>
                ok && curChunk == n && gptr == old(gptr) && egptr == old(egptr) && buffer[..] == old(buffer[..])
      ensures n != old(curChunk) ==> forall raw ::
                ChunkStored(codec, file, dataOffset, chunks[n], raw) && |raw| <= chunkLen ==>
                ok && curChunk == n && gptr == 0 && egptr == |raw| && buffer[..egptr] == raw
    {
      if n == curChunk {
        return true;
      }
      var chunk := chunks[n];
      fpos := dataOffset + chunk.offset;
      if fpos + chunk.size > |file| {
        return false;
      }
      var zBuf := file[fpos..fpos + chunk.size];
      fpos := fpos + chunk.size;
      var out := codec.inflate(zBuf);
      if out.None? {
        return false;
      }
      var total := if |out.value| < chunkLen then |out.value| else chunkLen;
      forall i | 0 <= i < total {
        buffer[i] := out.value[i];
      }
      gptr, egptr := 0, total;
      curChunk := n;
      return true;
    }

    /** Load the chunk after the current one, whose bytes are used up. */
    method LoadNext(ghost raws: seq<seq<byte>>)
      requires Reads(raws) && gptr == egptr && curChunk + 1 < |chunks|
      modifies this`fpos, this`gptr, this`egptr, this`curChunk, buffer
      ensures Reads(raws) && Position() == old(Position())
      ensures curChunk == old(curChunk) + 1 && gptr == 0
    {
      ghost var k, n := curChunk, chunkLen;
      assert ChunkStored(codec, file, dataOffset, chunks[k + 1], raws[k + 1]);
      assert egptr == n by {
        if 0 <= k { assert |raws[k]| == n; }
      }
      var ok := ReadChunk(curChunk + 1);
    }

    /** The next character without taking it, or EOF; a byte 0xff cannot be told from EOF. */
    method Underflow(ghost raws: seq<seq<byte>>) returns (c: int)
      requires Reads(raws)
      modifies this`fpos, this`gptr, this`egptr, this`curChunk, buffer
      ensures Reads(raws) && Position() == old(Position())
      ensures old(gptr < egptr || curChunk + 1 >= |chunks|) ==> curChunk == old(curChunk) && gptr == old(gptr)
      ensures old(gptr == egptr && curChunk + 1 < |chunks|) ==> curChunk == old(curChunk) + 1 && gptr == 0
      ensures c == if old(gptr == egptr && curChunk + 1 >= |chunks|) then -1
                   else if buffer[gptr] < 128 then buffer[gptr] as int else buffer[gptr] as int - 256
    {
      if gptr < egptr {
        return CharValue(buffer[gptr]);
      }
      if curChunk + 1 >= |chunks| {
        return EOF;
      }
      LoadNext(raws);
      return CharValue(buffer[gptr]);
    }

    /** The position a seek asks for. The product of chunk number and chunk length is computed in 64 unsigned
        bits, so that it wraps while no chunk is loaded; the sum is right again. */
    method TargetPos(off: int, dir: SeekDir, ghost raws: seq<seq<byte>>) returns (targetPos: int)
      requires Reads(raws) && Position() < TWO_63 && dir != End
      ensures targetPos == Target(off, dir)
    {
      PositionNonNegative(raws);
      if dir == Beg {
        targetPos := off;
      } else {
        StartIsProduct(curChunk, chunkLen);
        var curPos := ((curChunk * chunkLen) % TWO_64 + gptr) % TWO_64;
        WrapsBack(curChunk * chunkLen, gptr);
        targetPos := curPos + off;
      }
    }

    /** Seek to an absolute position or relative to the current one; seeks from the end are not supported. */
    method Seekoff(off: int, dir: SeekDir, ghost raws: seq<seq<byte>>) returns (pos: int)
      requires Reads(raws) && Position() < TWO_63
      requires dir != End && 0 <= Target(off, dir) ==> Seekable(raws, chunkLen, Target(off, dir))
      modifies this`fpos, this`gptr, this`egptr, this`curChunk, buffer
      ensures Reads(raws)
      ensures var target := if dir == Cur then old(Position()) + off else off;
              pos == if dir == End || target < 0 then -1 else target
      ensures 0 <= pos ==> Position() == pos && gptr == pos % chunkLen
      ensures pos < 0 ==> Position() == old(Position()) && curChunk == old(curChunk) && gptr == old(gptr)
    {
      if dir == End {
        return EOF;
      }
      var targetPos := TargetPos(off, dir, raws);
      if targetPos < 0 {
        return -1;
      }
      SeekTo(targetPos, raws);
      return targetPos;
    }

    method SeekTo(targetPos: nat, ghost raws: seq<seq<byte>>)
      requires Reads(raws) && Seekable(raws, chunkLen, targetPos)
      modifies this`fpos, this`gptr, this`egptr, this`curChunk, buffer
      ensures Reads(raws) && Position() == targetPos && gptr == targetPos % chunkLen
    {
      var targetChunk := targetPos / chunkLen;
      var chunkPos := targetPos % chunkLen;
      StartOfTarget(targetPos, chunkLen);
      LoadAt(targetChunk, chunkPos, raws);
    }

    /** Load a chunk and set the get pointer within it. */
    method LoadAt(k: nat, g: nat, ghost raws: seq<seq<byte>>)
      requires Reads(raws) && k < |raws| && g <= |raws[k]|
      modifies this`fpos, this`gptr, this`egptr, this`curChunk, buffer
      ensures Reads(raws) && curChunk == k && gptr == g
    {
      assert ChunkStored(codec, file, dataOffset, chunks[k], raws[k]);
      assert |raws[k]| <= chunkLen;
      var ok := ReadChunk(k);
      assert |buffer[..egptr]| == |raws[k]|;
      gptr := g;
    }

    ghost function Target(off: int, dir: SeekDir): int
      reads this
    {
      if dir == Cur then Position() + off else off
    }

    lemma PositionNonNegative(raws: seq<seq<byte>>)
      requires Reads(raws)
      ensures 0 <= Position()
    {
      StartIsProduct(curChunk, chunkLen);
      if 0 <= curChunk {
        assert 0 <= curChunk * chunkLen;
      }
    }

    /** Take up to n bytes from the current chunk. */
    method TakeFromChunk(n: nat, ghost raws: seq<seq<byte>>, ghost data: seq<byte>, ghost p: int) returns (s: seq<byte>)
      requires Reads(raws) && 0 <= curChunk && data == Flatten(raws) && p == Position()
      modifies this`gptr
      ensures Reads(raws) && Position() == p + |s| && 0 <= p && p + |s| <= |data| && s == data[p..p + |s|]
      ensures |s| == if egptr - old(gptr) > n then n else egptr - old(gptr)
      ensures gptr == old(gptr) + |s|
      ensures forall b :: p < b < p + |s| ==> !Boundary(chunkLen, b)
    {
      var avail := egptr - gptr;
      if avail > n {
        avail := n;
      }
      TakenBytes(raws, chunkLen, curChunk, gptr, avail, p);
      var available := buffer[..egptr];
      s := available[gptr..gptr + avail];
      gptr := gptr + avail;
    }

    /** Make sure that there are bytes to take, as long as the data has any; stop says that reading ends here. */
    method Refill(ghost raws: seq<seq<byte>>, ghost data: seq<byte>, ghost p: int) returns (stop: bool)
      requires Reads(raws) && data == Flatten(raws) && p == Position()
      modifies this`fpos, this`gptr, this`egptr, this`curChunk, buffer
      ensures Reads(raws) && Position() == p && 0 <= p <= |data|
      ensures old(gptr < egptr) ==> !stop && curChunk == old(curChunk) && gptr == old(gptr) && egptr == old(egptr)
      ensures 0 <= curChunk && old(curChunk) <= curChunk && (!stop ==> gptr < egptr || curChunk > old(curChunk))
      ensures !stop && old(gptr == egptr) && gptr < egptr ==> p < |data| && data[p] != 0xff
      ensures stop ==> p == |data| || (Boundary(chunkLen, p) && data[p] == 0xff && old(gptr == egptr))
    {
      stop := false;
      if egptr - gptr == 0 {
        var c := Underflow(raws);
        stop := c == EOF;
      }
      ghost var k, g, n := curChunk, gptr, chunkLen;
      if g < egptr {
        TakenBytes(raws, n, k, g, 1, p);
        assert data[p] == data[p..p + 1][0] == raws[k][g..g + 1][0] == buffer[..egptr][g];
      } else {
        TakenBytes(raws, n, k, g, 0, p);
      }
    }

    /** One round of the read loop: look for the next chunk if this one is used up, then take from it. */
    method TakeSome(n: nat, ghost raws: seq<seq<byte>>, ghost data: seq<byte>, ghost p: int)
      returns (stop: bool, s: seq<byte>)
      requires Reads(raws) && 0 < n && data == Flatten(raws) && p == Position()
      modifies this`fpos, this`gptr, this`egptr, this`curChunk, buffer
      ensures Reads(raws) && Position() == p + |s| && 0 <= p && |s| <= n && p + |s| <= |data|
      ensures s == data[p..p + |s|] && forall b :: p < b < p + |s| ==> !Boundary(chunkLen, b)
      ensures curChunk >= old(curChunk) && (0 < |s| || stop || curChunk > old(curChunk))
      ensures |s| < n && !stop ==> gptr == egptr
      ensures old(gptr == egptr) && 0 < |s| ==> data[p] != 0xff
      ensures old(gptr < egptr) ==> !stop && 0 < |s|
      ensures stop ==> s == [] && (p == |data| || (Boundary(chunkLen, p) && data[p] == 0xff && old(gptr == egptr)))
    {
      s := [];
      stop := Refill(raws, data, p);
      if !stop {
        ghost var left := egptr - gptr;
        s := TakeFromChunk(n, raws, data, p);
        assert |s| == if left > n then n else left;
      }
    }

    /** The state within a read from start: dest has been delivered and n bytes are still wanted. */
    ghost predicate InRead(data: seq<byte>, start: int, loaded: bool, dest: seq<byte>, n: int)
      reads this
    {
      && 0 <= n && Position() == start + |dest| && Delivered(data, start, loaded, dest)
      && (n != 0 ==> (gptr < egptr <==> loaded && dest == []))
    }

    lemma BeginsRead(count: nat, raws: seq<seq<byte>>)
      requires Reads(raws)
      ensures InRead(Flatten(raws), Position(), gptr < egptr, [], count)
    {
      PositionNonNegative(raws);
      PositionInData(raws);
    }

    /** The body of the read loop. */
    method ReadStep(n: nat, ghost raws: seq<seq<byte>>, ghost data: seq<byte>, ghost start: int, ghost loaded: bool,
                    dest: seq<byte>)
      returns (stop: bool, left: int, longer: seq<byte>)
      requires Reads(raws) && 0 < n && data == Flatten(raws) && InRead(data, start, loaded, dest, n)
      modifies this`fpos, this`gptr, this`egptr, this`curChunk, buffer
      ensures Reads(raws) && left + |longer| == n + |dest|
      ensures !stop ==> InRead(data, start, loaded, longer, left)
      ensures !stop ==> left < n || (left == n && curChunk > old(curChunk))
      ensures stop ==> longer == dest && Stopped(data, start, loaded, longer)
    {
      ghost var q := start + |dest|;
      var s;
      stop, s := TakeSome(n, raws, data, q);
      longer, left := dest + s, n - |s|;
      if stop {
        assert longer == dest && start + |longer| == q;
        assert q == |data| || LooksLikeEnd(data, chunkLen, start, loaded, q);
      } else {
        DeliversMore(data, start, loaded, dest, s);
      }
    }

    lemma DeliversMore(data: seq<byte>, start: int, loaded: bool, dest: seq<byte>, s: seq<byte>)
      requires Delivered(data, start, loaded, dest) && start + |dest| + |s| <= |data|
      requires s == data[start + |dest|..start + |dest| + |s|]
      requires forall b :: start + |dest| < b < start + |dest| + |s| ==> !Boundary(chunkLen, b)
      requires s != [] ==> data[start + |dest|] != 0xff || (dest == [] && loaded)
      ensures Delivered(data, start, loaded, dest + s)
    {
      NoEndStep(data, chunkLen, start, loaded, start + |dest|, |s|);
      SliceAppend(data, start, start + |dest|, start + |dest| + |s|);
    }

    /** The read loop. */
    method ReadLoop(count: nat, ghost raws: seq<seq<byte>>, ghost data: seq<byte>, ghost p: int, ghost loaded: bool)
      returns (dest: seq<byte>)
      requires Reads(raws) && data == Flatten(raws) && InRead(data, p, loaded, [], count)
      modifies this`fpos, this`gptr, this`egptr, this`curChunk, buffer
      ensures Reads(raws) && Position() == p + |dest| && |dest| <= count && Delivered(data, p, loaded, dest)
      ensures |dest| == count || Stopped(data, p, loaded, dest)
    {
      dest := [];
      var n := count;
      while n != 0
        invariant Reads(raws) && n + |dest| == count && InRead(data, p, loaded, dest, n)
        decreases n, |raws| - curChunk
      {
        var stop;
        stop, n, dest := ReadStep(n, raws, data, p, loaded, dest);
        if stop {
          return;
        }
      }
    }

    /** A read from p has come to the end of the data or to a chunk that looks like it. */
    ghost predicate Stopped(data: seq<byte>, p: int, loaded: bool, dest: seq<byte>)
      reads this
    {
      && Position() == p + |dest| && Delivered(data, p, loaded, dest)
      && (p + |dest| == |data| || LooksLikeEnd(data, chunkLen, p, loaded, p + |dest|))
    }

    /** What has been delivered of a read from p: the flat data, across no chunk that looks like the end. */
    ghost predicate Delivered(data: seq<byte>, p: int, loaded: bool, dest: seq<byte>)
      reads this
    {
      0 <= p && p + |dest| <= |data| && dest == data[p..p + |dest|]
      && NoEndBefore(data, chunkLen, p, loaded, p + |dest|)
    }

    /** Read up to count bytes: the flat data from the position on, to the end of the data or to the first chunk
        that looks like the end when it is loaded. */
    method Xsgetn(count: nat, ghost raws: seq<seq<byte>>, ghost data: seq<byte>, ghost p: int) returns (dest: seq<byte>)
      requires Reads(raws) && data == Flatten(raws) && p == Position()
      modifies this`fpos, this`gptr, this`egptr, this`curChunk, buffer
      ensures Reads(raws) && 0 <= p && Position() == p + |dest| && p + |dest| <= |data| && dest == data[p..p + |dest|]
      ensures var goal := if p + count < |data| then p + count else |data|;
              ReadEnds(data, chunkLen, p, old(gptr < egptr), goal, p + |dest|)
    {
      BeginsRead(count, raws);
      dest := ReadLoop(count, raws, data, p, gptr < egptr);
    }

    lemma PositionInData(raws: seq<seq<byte>>)
      requires Reads(raws)
      ensures Position() <= |Flatten(raws)|
    {
      if 0 <= curChunk {
        TakenBytes(raws, chunkLen, curChunk, gptr, 0, Position());
      }
    }

    /** Right after a seek to a position before the end there are bytes to take. */
    lemma BytesLeft(raws: seq<seq<byte>>)
      requires Reads(raws) && 0 <= Position() < |Flatten(raws)| && gptr == Position() % chunkLen
      ensures 0 <= curChunk && gptr < egptr
    {
      DivModLaw(Position(), chunkLen);
      assert 0 <= curChunk by {
        StartIsProduct(curChunk, chunkLen);
      }
      TakenBytes(raws, chunkLen, curChunk, gptr, 0, Position());
      assert curChunk < |raws| - 1 ==> |raws[curChunk]| == chunkLen;
      assert |buffer[..egptr]| == egptr;
    }
  }
}
