/** The chunking writer: a fixed buffer, flushed as one compressed chunk whenever it is full. */
module DzOstreamBufs {
  import opened Chunking
  import opened Container
  import opened DzFiles

  class DzOstreamBuf {
    const codec: Codec
    const buffer: array<byte> // d_buffer; pbase is its start, epptr its end
    var pptr: nat
    var size: nat // d_size
    var sizes: seq<nat> // d_chunks
    var zData: seq<byte> // the temporary file d_zDataStream
    var dz: seq<byte> // d_dzStream

    ghost var written: seq<byte> // every byte accepted so far
    ghost var flushed: seq<seq<byte>> // the chunks flushed so far

    /** What holds between any two operations, whether or not the buffer was flushed early. */
    ghost predicate Consistent()
      reads this, buffer
    {
      && 0 < buffer.Length && pptr <= buffer.Length
      && written == Flatten(flushed) + buffer[..pptr]
      && zData == Flatten(Deflated(codec, flushed))
      && sizes == Sizes(Deflated(codec, flushed))
      && size == |Flatten(flushed)|
      && dz == []
    }

    /** Every chunk flushed was full, and a flush is always followed by a byte. */
    ghost predicate Valid()
      reads this, buffer
    {
      Consistent() && AllFull() && (flushed != [] ==> 0 < pptr)
    }

    ghost predicate AllFull()
      reads this
    {
      forall k :: 0 <= k < |flushed| ==> |flushed[k]| == buffer.Length
    }

    constructor (codec: Codec, chunkLen: nat)
      requires 0 < chunkLen
      ensures Valid() && fresh(buffer) && this.codec == codec && buffer.Length == chunkLen && written == []
    {
      this.codec := codec;
      buffer := new byte[chunkLen];
      pptr, size, sizes, zData, dz := 0, 0, [], [], [];
      written, flushed := [], [];
    }

    /** Compress what is in the buffer as one chunk. */
    method FlushBuffer()
      requires Consistent()
      modifies this
      ensures Consistent() && pptr == 0 && written == old(written)
      ensures flushed == old(flushed) + [old(buffer[..pptr])]
    {
      var zBuf := codec.deflate(buffer[..pptr]);
      zData := zData + zBuf;
      size := size + pptr;
      sizes := sizes + [|zBuf|];
      ghost var before, chunk := flushed, buffer[..pptr];
      flushed := flushed + [chunk];
      pptr := 0;
      FlattenSnoc(before, chunk);
      FlattenSnoc(Deflated(codec, before), zBuf);
      assert Deflated(codec, flushed) == Deflated(codec, before) + [zBuf];
      assert Sizes(Deflated(codec, flushed)) == Sizes(Deflated(codec, before)) + [|zBuf|];
      assert buffer[..0] == [] && Flatten(flushed) + [] == Flatten(flushed);
    }

    /** Called by the stream for a byte that finds the buffer full. Nothing in the program calls it with EOF, after
        which the buffer would be left empty behind a flush. */
    method Overflow(c: int) returns (r: int)
      requires Valid() && pptr == buffer.Length && (c == EOF || 0 <= c < 256)
      modifies this, buffer
      ensures r == c && Consistent()
      ensures c == EOF ==> written == old(written) && pptr == 0
      ensures c != EOF ==> Valid() && written == old(written) + [c as byte]
    {
      FlushBuffer();
      if c != EOF {
        buffer[pptr] := c as byte;
        assert buffer[..1] == [c as byte] && buffer[..0] == [];
        written := written + [c as byte];
        pptr := pptr + 1;
      }
      r := c;
    }

    /** memcpy(pptr, s + from, n). */
    method CopyBytes(s: seq<byte>, from: nat, n: nat)
      requires from + n <= |s| && pptr + n <= buffer.Length
      modifies buffer
      ensures buffer[..pptr + n] == old(buffer[..pptr]) + s[from..from + n]
    {
      ghost var head := buffer[..pptr];
      for i := 0 to n
        invariant buffer[..pptr + i] == head + s[from..from + i]
      {
        buffer[pptr + i] := s[from + i];
        assert buffer[..pptr + i + 1] == buffer[..pptr + i] + [s[from + i]];
        assert s[from..from + i + 1] == s[from..from + i] + [s[from + i]];
      }
    }

    /** Copy bytes behind those in the buffer and move the pointer. */
    method CopyIn(s: seq<byte>, from: nat, n: nat)
      requires Consistent() && AllFull() && 0 < n && from + n <= |s| && pptr + n <= buffer.Length
      modifies this`pptr, this`written, buffer
      ensures Valid() && written == old(written) + s[from..from + n]
    {
      ghost var head, part := buffer[..pptr], s[from..from + n];
      CopyBytes(s, from, n);
      pptr := pptr + n;
      written := written + part;
      assert Flatten(flushed) + head + part == Flatten(flushed) + (head + part);
    }

    /** The body of the copy loop: flush a full buffer, then take as many bytes as there is room for. */
    method PutSome(s: seq<byte>, from: nat, n: nat) returns (avail: nat)
      requires Valid() && 0 < n && from + n <= |s|
      modifies this, buffer
      ensures Valid() && 0 < avail <= n && written == old(written) + s[from..from + avail]
    {
      avail := buffer.Length - pptr;
      if avail == 0 {
        FlushBuffer();
        avail := buffer.Length - pptr;
      }
      if avail > n {
        avail := n;
      }
      CopyIn(s, from, avail);
    }

    /** Write a block of bytes, flushing whenever the buffer is full and more is to come. */
    method Xsputn(s: seq<byte>) returns (nWritten: int)
      requires Valid()
      modifies this, buffer
      ensures Valid() && nWritten == |s| && written == old(written) + s
    {
      nWritten := 0;
      var n := |s|;
      while n != 0
        invariant 0 <= n && nWritten + n == |s| && Valid() && written == old(written) + s[..nWritten]
      {
        var avail := PutSome(s, nWritten, n);
        SliceStep(old(written), s, nWritten, avail);
        nWritten := nWritten + avail;
        n := n - avail;
      }
      assert s[..nWritten] == s;
    }

    /** Append to the output, of which `base` was there before and `done` has been added since. */
    method Put(bytes: seq<byte>, ghost base: seq<byte>, ghost done: seq<byte>)
      requires dz == base + done
      modifies this`dz
      ensures dz == base + (done + bytes)
    {
      dz := dz + bytes;
    }

    method PutU16(x: nat, ghost base: seq<byte>, ghost done: seq<byte>)
      requires dz == base + done
      modifies this`dz
      ensures dz == base + (done + U16(x))
    {
      Put([Fputc(x % 256)], base, done);
      Put([Fputc(x / 256)], base, done + [Fputc(x % 256)]);
      assert done + [Fputc(x % 256)] + [Fputc(x / 256)] == done + U16(x);
    }

    method WriteHeader(mtime: seq<byte>)
      requires |mtime| == 4
      modifies this`dz
      ensures dz == old(dz) + Header(mtime)
    {
      dz := dz + ([GZ_ID1, GZ_ID2, GZ_CM_DEFLATE, GZ_FLG_EXTRA] + mtime + [GZ_XFL_MAX, GZ_OS_UNIX]);
    }

    method WriteSizes()
      modifies this`dz
      ensures dz == old(dz) + SizeBytes(sizes)
    {
      ghost var base := dz;
      assert base + [] == base;
      for i := 0 to |sizes|
        invariant dz == base + SizeBytes(sizes[..i])
      {
        PutU16(sizes[i], base, SizeBytes(sizes[..i]));
        SizeBytesSnoc(sizes[..i], sizes[i]);
        assert sizes[..i + 1] == sizes[..i] + [sizes[i]];
      }
      assert sizes[..|sizes|] == sizes;
    }

    /** The extra field up to the sizes. */
    method WriteInfoHead()
      modifies this`dz
      ensures dz == old(dz) + (U16(10 + 2 * |sizes|) + [SI1, SI2] + U16(6 + 2 * |sizes|) + [1, 0]
                               + U16(buffer.Length) + U16(|sizes|))
    {
      ghost var base, done := dz, [];
      var xlen := 10 + 2 * |sizes|;
      PutU16(xlen, base, done);
      done := U16(xlen);
      Put([SI1, SI2], base, done);
      done := done + [SI1, SI2];
      var len := 6 + 2 * |sizes|;
      PutU16(len, base, done);
      done := done + U16(len);
      Put([1, 0], base, done);
      done := done + [1, 0];
      PutU16(buffer.Length, base, done);
      done := done + U16(buffer.Length);
      PutU16(|sizes|, base, done);
    }

    method WriteChunkInfo()
      modifies this`dz
      ensures dz == old(dz) + ChunkInfo(buffer.Length, sizes)
    {
      var xlen, len := 10 + 2 * |sizes|, 6 + 2 * |sizes|;
      ghost var base := dz;
      WriteInfoHead();
      WriteSizes();
      InfoAssociates(base, xlen, len, buffer.Length, |sizes|, SizeBytes(sizes));
    }

    /** Put the file together: header, sizes of the chunks, compressed data, trailer. */
    method Assemble(mtime: seq<byte>, crc: seq<byte>) returns (file: seq<byte>)
      requires |mtime| == 4 && dz == []
      modifies this`dz
      ensures file == Header(mtime) + ChunkInfo(buffer.Length, sizes) + zData + Trailer(crc, size)
    {
      WriteHeader(mtime);
      assert [] + Header(mtime) == Header(mtime);
      WriteChunkInfo();
      dz := dz + zData;
      dz := dz + Trailer(crc, size);
      file := dz;
    }

    /** The destructor: flush what is left, end the deflate stream, and assemble the file.
        The modification time and the checksum are given; the trailer ends with the size modulo 2^32. */
    method Close(mtime: seq<byte>, crc: seq<byte>) returns (file: seq<byte>)
      requires Consistent() && |mtime| == 4
      modifies this
      ensures file == File(mtime, buffer.Length, Deflated(codec, old(flushed) + [old(buffer[..pptr])]),
                           codec.finish, Trailer(crc, |old(written)|))
      ensures |crc| == 4 ==> FileBytes(file, mtime, buffer.Length,
                                       Deflated(codec, old(flushed) + [old(buffer[..pptr])]), codec.finish, crc,
                                       |old(written)|)
      ensures old(Valid()) ==> old(flushed) + [old(buffer[..pptr])] == Chunks(old(written), buffer.Length)
    {
      if |crc| == 4 {
        FileLeft(mtime, buffer.Length, Deflated(codec, flushed + [buffer[..pptr]]), codec.finish, crc, |written|);
      }
      if AllFull() {
        TailExact(flushed, buffer[..pptr], buffer.Length);
      }
      FlushBuffer();
      assert buffer[..0] == [] && Flatten(flushed) + [] == Flatten(flushed);
      zData := zData + codec.finish;
      file := Assemble(mtime, crc);
    }
  }
}
