/** A container file byte by byte, as section 2.3 of RFC 1952 and the dictzip extension lay it out. */
module DzFiles {
  import opened Chunking
  import opened Container
  import opened DzHeaders
  import opened Wrappers

  /** The ten bytes of the fixed part: identification, deflate, an extra field, time, flags and operating system. */
  ghost predicate FixedBytes(file: seq<byte>, mtime: seq<byte>) {
    && 10 <= |file| && file[0] == 31 && file[1] == 139 && file[2] == 8 && file[3] == 4
    && file[4..8] == mtime && file[8] == 2 && file[9] == 3
  }

  /** A number of two bytes, low byte first. */
  ghost predicate Short(file: seq<byte>, p: nat, x: nat) {
    p + 2 <= |file| && file[p] as int + 256 * file[p + 1] as int == x
  }

  /** The extra field: its length, the identification RA, the length behind it, the version 1, the length of a chunk,
      the number of chunks, and the size of each compressed chunk; numbers are cut to 16 bits. */
  ghost predicate ExtraBytes(file: seq<byte>, n: nat, sizes: seq<nat>) {
    && 22 + 2 * |sizes| <= |file|
    && Short(file, 10, (10 + 2 * |sizes|) % 65536) && file[12] == 82 && file[13] == 65
    && Short(file, 14, (6 + 2 * |sizes|) % 65536) && Short(file, 16, 1) && Short(file, 18, n % 65536)
    && Short(file, 20, |sizes| % 65536)
    && forall i :: 0 <= i < |sizes| ==> Short(file, 22 + 2 * i, sizes[i] % 65536)
  }

  /** The last eight bytes: the checksum, and the size of the data modulo 2^32, low byte first. */
  ghost predicate TrailerBytes(file: seq<byte>, crc: seq<byte>, size: nat) {
    && 8 <= |file| && file[|file| - 8..|file| - 4] == crc
    && file[|file| - 4] as int + 0x100 * file[|file| - 3] as int + 0x1_0000 * file[|file| - 2] as int
       + 0x100_0000 * file[|file| - 1] as int == size % 0x1_0000_0000
  }

  /** The whole file; the compressed chunks and the end of the stream stand between extra field and trailer. */
  ghost predicate FileBytes(file: seq<byte>, mtime: seq<byte>, n: nat, zChunks: seq<seq<byte>>, finish: seq<byte>,
                            crc: seq<byte>, size: nat) {
    && FixedBytes(file, mtime) && ExtraBytes(file, n, Sizes(zChunks)) && TrailerBytes(file, crc, size)
    && |file| == 22 + 2 * |zChunks| + |Flatten(zChunks)| + |finish| + 8
    && file[22 + 2 * |zChunks|..|file| - 8] == Flatten(zChunks) + finish
  }

  lemma ShortHeld(file: seq<byte>, p: nat, x: nat)
    requires U16At(file, p) == Some(x)
    ensures Short(file, p, x)
  {
  }

  lemma FixedLeft(file: seq<byte>, mtime: seq<byte>)
    requires |mtime| == 4 && HoldsAt(file, 0, Header(mtime))
    ensures FixedBytes(file, mtime)
  {
    var header := Header(mtime);
    forall i | 0 <= i < 10 ensures file[i] == header[i] {
      HeldByte(file, 0, header, i);
    }
    assert header[4..8] == mtime && file[4..8] == header[4..8];
  }

  lemma SizesHeldModulo(file: seq<byte>, p: nat, sizes: seq<nat>, i: nat)
    requires HoldsAt(file, p, SizeBytes(sizes)) && i < |sizes|
    ensures Short(file, p + 2 * i, sizes[i] % 65536)
  {
    SizeBytesAt(sizes, i);
    HeldByte(file, p, SizeBytes(sizes), 2 * i);
    HeldByte(file, p, SizeBytes(sizes), 2 * i + 1);
    U16RoundTrip(sizes[i]);
  }

  lemma ExtraHeldModulo(file: seq<byte>, n: nat, sizes: seq<nat>)
    requires HoldsAt(file, 10, ChunkInfo(n, sizes))
    ensures ExtraBytes(file, n, sizes)
  {
    NumbersOfExtra(file, 10 + 2 * |sizes|, 6 + 2 * |sizes|, n, |sizes|, SizeBytes(sizes));
    AllSizesModulo(file, 22, sizes);
  }

  lemma AllSizesModulo(file: seq<byte>, p: nat, sizes: seq<nat>)
    requires HoldsAt(file, p, SizeBytes(sizes))
    ensures forall i :: 0 <= i < |sizes| ==> Short(file, p + 2 * i, sizes[i] % 65536)
  {
    forall i | 0 <= i < |sizes| ensures Short(file, p + 2 * i, sizes[i] % 65536) {
      SizesHeldModulo(file, p, sizes, i);
    }
  }

  lemma NumbersOfExtra(file: seq<byte>, xlen: nat, len: nat, n: nat, count: nat, rest: seq<byte>)
    requires HoldsAt(file, 10, InfoBytes(xlen, len, n, count, rest))
    ensures Short(file, 10, xlen % 65536) && Short(file, 14, len % 65536) && Short(file, 16, 1)
    ensures Short(file, 18, n % 65536) && Short(file, 20, count % 65536)
    ensures 22 + |rest| <= |file| && file[12] == 82 && file[13] == 65 && HoldsAt(file, 22, rest)
  {
    var table := U16(1) + (U16(n) + (U16(count) + rest));
    HeldU16(file, 10, xlen, [SI1, SI2] + (U16(len) + table));
    HeldParts(file, 12, [SI1, SI2], U16(len) + table);
    HeldByte(file, 12, [SI1, SI2], 0);
    HeldByte(file, 12, [SI1, SI2], 1);
    HeldU16(file, 14, len, table);
    NumbersHeld(file, 16, 1, n, count, rest);
  }

  lemma TrailerLeft(before: seq<byte>, crc: seq<byte>, size: nat)
    requires |crc| == 4
    ensures TrailerBytes(before + Trailer(crc, size), crc, size)
  {
    var file, k := before + Trailer(crc, size), |before|;
    assert file[k..k + 4] == crc;
    assert file[k + 4..] == Trailer(crc, size)[4..];
    FourBytes(size);
  }

  lemma FourBytes(size: nat)
    ensures size % 256 + 0x100 * (size / 0x100 % 256) + 0x1_0000 * (size / 0x1_0000 % 256)
            + 0x100_0000 * (size / 0x100_0000 % 256) == size % 0x1_0000_0000
  {
    var a, b, c := size / 0x100, size / 0x1_0000, size / 0x100_0000;
    assert size == 0x100 * a + size % 0x100 && a == 0x100 * b + a % 0x100 && b == 0x100 * c + b % 0x100;
    var low := size % 0x100 + 0x100 * (a % 0x100) + 0x1_0000 * (b % 0x100) + 0x100_0000 * (c % 0x100);
    Remainder32(size, c / 0x100, low);
  }

  lemma Remainder32(x: nat, k: nat, low: nat)
    requires x == 0x1_0000_0000 * k + low && low < 0x1_0000_0000
    ensures x % 0x1_0000_0000 == low
  {
  }

  /** What the writer leaves is such a file. */
  lemma FileLeft(mtime: seq<byte>, n: nat, zChunks: seq<seq<byte>>, finish: seq<byte>, crc: seq<byte>, size: nat)
    requires |mtime| == 4 && |crc| == 4
    ensures FileBytes(File(mtime, n, zChunks, finish, Trailer(crc, size)), mtime, n, zChunks, finish, crc, size)
  {
    var sizes, data := Sizes(zChunks), Flatten(zChunks) + finish;
    var head, before := Header(mtime) + ChunkInfo(n, sizes), Header(mtime) + ChunkInfo(n, sizes) + data;
    var file := before + Trailer(crc, size);
    assert file == File(mtime, n, zChunks, finish, Trailer(crc, size));
    TrailerLeft(before, crc, size);
    HeadLeft(file, mtime, n, sizes, head, data + Trailer(crc, size));
    assert |head| == 22 + 2 * |zChunks|;
    MiddleLeft(head, data, Trailer(crc, size));
  }

  lemma HeadLeft(file: seq<byte>, mtime: seq<byte>, n: nat, sizes: seq<nat>, head: seq<byte>, rest: seq<byte>)
    requires |mtime| == 4 && head == Header(mtime) + ChunkInfo(n, sizes) && file == head + rest
    ensures FixedBytes(file, mtime) && ExtraBytes(file, n, sizes)
  {
    PrefixHeld(file, head);
    HeldParts(file, 0, Header(mtime), ChunkInfo(n, sizes));
    FixedLeft(file, mtime);
    ExtraHeldModulo(file, n, sizes);
  }

  lemma MiddleLeft(head: seq<byte>, data: seq<byte>, tail: seq<byte>)
    ensures (head + data + tail)[|head|..|head| + |data|] == data && head + data + tail == head + (data + tail)
  {
  }

  /** The headers the reader goes on with, and what it says of the others. */
  lemma AcceptedExactly(file: seq<byte>)
    ensures CheckHeader(file) == Pass <==>
              10 <= |file| && file[0] == 31 && file[1] == 139 && file[2] == 8 && file[3] as int / 4 % 2 == 1
    ensures CheckHeader(file) == Fail(Truncated) <==> |file| < 10
    ensures CheckHeader(file) == Fail(NotGzip) <==> 10 <= |file| && (file[0] != 31 || file[1] != 139)
    ensures CheckHeader(file) == Fail(UnknownMethod) <==>
              10 <= |file| && file[0] == 31 && file[1] == 139 && file[2] != 8
    ensures CheckHeader(file).Fail? ==> ParseHeader(file) == Failed(CheckHeader(file).error)
  {
  }

  /** The optional parts, bit by bit. */
  lemma FlagBits(flags: byte, rest: Rest)
    ensures Announces(flags, rest) <==>
              && flags as int / 4 % 2 == 1
              && (flags as int / 8 % 2 == 1 <==> rest.name.Some?)
              && (flags as int / 16 % 2 == 1 <==> rest.comment.Some?)
              && (flags as int / 2 % 2 == 1 <==> rest.checksum.Some?)
  {
  }

  /** A subfield that is read from position p: a list of chunks of version 1 behind the identification RA, and anything
      behind another one. */
  ghost predicate FieldBytes(file: seq<byte>, p: nat, f: Field) {
    && p + 4 <= |file|
    && match f
       case ChunkList(n, sizes) =>
         && file[p] == 82 && file[p + 1] == 65 && p + 10 + 2 * |sizes| <= |file|
         && Short(file, p + 4, 1) && Short(file, p + 6, n) && Short(file, p + 8, |sizes|)
         && forall i :: 0 <= i < |sizes| ==> Short(file, p + 10 + 2 * i, sizes[i])
       case Foreign(si1, si2, len) =>
         si1 == file[p] && si2 == file[p + 1] && !(si1 == 82 && si2 == 65) && Short(file, p + 2, len)
  }

  lemma FieldReadExactly(file: seq<byte>, p: nat, f: Field)
    ensures ParseField(file, p) == Done(f) <==> FieldBytes(file, p, f)
  {
    if f.ChunkList? {
      ListReadExactly(file, p, f.n, f.sizes);
    }
  }

  lemma ListReadExactly(file: seq<byte>, p: nat, n: nat, sizes: seq<nat>)
    ensures ParseField(file, p) == Done(ChunkList(n, sizes)) <==> FieldBytes(file, p, ChunkList(n, sizes))
  {
    if p + 10 + 2 * |sizes| <= |file| {
      SizesExactly(file, p + 10, sizes);
    }
  }

  lemma SizesExactly(file: seq<byte>, p: nat, sizes: seq<nat>)
    requires p + 2 * |sizes| <= |file|
    ensures SizesFrom(file, p, |sizes|) == sizes <==> forall i :: 0 <= i < |sizes| ==> Short(file, p + 2 * i, sizes[i])
  {
    var read := SizesFrom(file, p, |sizes|);
    forall i | 0 <= i < |sizes| ensures read[i] == sizes[i] <==> Short(file, p + 2 * i, sizes[i]) {
      assert read[i] == ReadU16(file[p + 2 * i], file[p + 2 * i + 1]);
    }
  }
}
