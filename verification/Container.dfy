/** The dictzip container: a gzip header whose extra field lists the sizes of the compressed chunks. */
module Container {
  import opened Chunking

  const EOF: int := -1 // of the C library

  const GZ_HEADER_SIZE: nat := 10
  const GZ_ID1: byte := 0x1f
  const GZ_ID2: byte := 0x8b
  const GZ_CM_DEFLATE: byte := 8
  const GZ_FLG_HCRC: byte := 2
  const GZ_FLG_EXTRA: byte := 4
  const GZ_FLG_NAME: byte := 8
  const GZ_FLG_COMMENT: byte := 16
  const GZ_XFL_MAX: byte := 2
  const GZ_OS_UNIX: byte := 3
  const SI1: byte := 0x52 // 'R'
  const SI2: byte := 0x41 // 'A'

  /** fputc stores its argument as an unsigned char. */
  function Fputc(x: nat): byte {
    (x % 256) as byte
  }

  /** The two bytes written for a number, low byte first; what does not fit 16 bits is lost. */
  function U16(x: nat): seq<byte> {
    [Fputc(x % 256), Fputc(x / 256)]
  }

  /** The number two bytes are read as. */
  function ReadU16(lo: byte, hi: byte): nat {
    lo as int + hi as int * 256
  }

  lemma U16RoundTrip(x: nat)
    ensures ReadU16(U16(x)[0], U16(x)[1]) == x % 65536
  {
    var low, high := x % 256, x / 256;
    var middle, rest := high % 256, high / 256;
    assert x == 65536 * rest + (256 * middle + low);
    ModuloIs(x, rest, 256 * middle + low);
  }

  lemma SmallModulo(n: nat)
    requires n < 65536
    ensures n % 65536 == n
  {
  }

  lemma ModuloIs(x: int, k: int, y: int)
    requires x == 65536 * k + y && 0 <= y < 65536
    ensures x % 65536 == y
  {
  }

  /** The sizes, two bytes each. */
  function SizeBytes(sizes: seq<nat>): (bytes: seq<byte>)
    ensures |bytes| == 2 * |sizes|
  {
    seq(2 * |sizes|, i requires 0 <= i < 2 * |sizes| => U16(sizes[i / 2])[i % 2])
  }

  lemma SizeBytesSnoc(sizes: seq<nat>, x: nat)
    ensures SizeBytes(sizes + [x]) == SizeBytes(sizes) + U16(x)
  {
    var n := |sizes|;
    forall i | 0 <= i < 2 * n + 2
      ensures SizeBytes(sizes + [x])[i] == (SizeBytes(sizes) + U16(x))[i]
    {
      if 2 * n <= i {
        assert i / 2 == n && i % 2 == i - 2 * n;
      }
    }
  }

  /** The bytes of size i within the list of sizes. */
  lemma SizeBytesAt(sizes: seq<nat>, i: nat)
    requires i < |sizes|
    ensures SizeBytes(sizes)[2 * i] == U16(sizes[i])[0] && SizeBytes(sizes)[2 * i + 1] == U16(sizes[i])[1]
  {
    assert 2 * i / 2 == i && (2 * i + 1) / 2 == i;
  }

  /** The ten-byte header; the modification time is a parameter. */
  function Header(mtime: seq<byte>): seq<byte>
    requires |mtime| == 4
  {
    [GZ_ID1, GZ_ID2, GZ_CM_DEFLATE, GZ_FLG_EXTRA] + mtime + [GZ_XFL_MAX, GZ_OS_UNIX]
  }

  /** The extra field: its length, then one subfield with version, chunk length, chunk count and sizes. */
  function InfoBytes(xlen: nat, len: nat, chunkLen: nat, count: nat, rest: seq<byte>): seq<byte> {
    U16(xlen) + ([SI1, SI2] + (U16(len) + (U16(1) + (U16(chunkLen) + (U16(count) + rest)))))
  }

  /** The extra field for given compressed sizes. */
  function ChunkInfo(chunkLen: nat, sizes: seq<nat>): seq<byte> {
    InfoBytes(10 + 2 * |sizes|, 6 + 2 * |sizes|, chunkLen, |sizes|, SizeBytes(sizes))
  }

  lemma InfoAssociates(base: seq<byte>, xlen: nat, len: nat, chunkLen: nat, count: nat, rest: seq<byte>)
    ensures base + (U16(xlen) + [SI1, SI2] + U16(len) + [1, 0] + U16(chunkLen) + U16(count)) + rest
         == base + InfoBytes(xlen, len, chunkLen, count, rest)
  {
    AppendAssociates(base, U16(xlen), [SI1, SI2], U16(len), U16(1), U16(chunkLen), U16(count), rest);
    assert U16(1) == [1, 0];
  }

  lemma AppendAssociates(base: seq<byte>, a: seq<byte>, b: seq<byte>, c: seq<byte>, d: seq<byte>, e: seq<byte>,
                         f: seq<byte>, g: seq<byte>)
    ensures base + (a + b + c + d + e + f) + g == base + (a + (b + (c + (d + (e + (f + g))))))
  {
  }

  function Sizes(zChunks: seq<seq<byte>>): (sizes: seq<nat>)
    ensures |sizes| == |zChunks| && forall i :: 0 <= i < |sizes| ==> sizes[i] == |zChunks[i]|
  {
    seq(|zChunks|, i requires 0 <= i < |zChunks| => |zChunks[i]|)
  }

  /** A whole container file for given compressed chunks, end of stream and trailer. */
  function File(mtime: seq<byte>, chunkLen: nat, zChunks: seq<seq<byte>>, finish: seq<byte>, trailer: seq<byte>)
    : seq<byte>
    requires |mtime| == 4
  {
    Header(mtime) + ChunkInfo(chunkLen, Sizes(zChunks)) + (Flatten(zChunks) + finish) + trailer
  }

  /** The checksum and the size of the data modulo 2^32, low byte first. */
  function Trailer(crc: seq<byte>, size: nat): seq<byte> {
    crc + [Fputc(size), Fputc(size / 0x100), Fputc(size / 0x1_0000), Fputc(size / 0x100_0000)]
  }

  function Deflated(codec: Codec, chunks: seq<seq<byte>>): (z: seq<seq<byte>>)
    ensures |z| == |chunks| && forall i :: 0 <= i < |z| ==> z[i] == codec.deflate(chunks[i])
  {
    seq(|chunks|, i requires 0 <= i < |chunks| => codec.deflate(chunks[i]))
  }

  /** The sum of the sizes before chunk k: the offset of its compressed form. */
  function Offset(sizes: seq<nat>, k: nat): nat
    requires k <= |sizes|
  {
    if k == 0 then 0 else Offset(sizes, k - 1) + sizes[k - 1]
  }

  /** The offsets are the true positions of the compressed chunks. */
  lemma {:induction false} OffsetIsPosition(zChunks: seq<seq<byte>>, k: nat)
    requires k <= |zChunks|
    ensures Offset(Sizes(zChunks), k) == |Flatten(zChunks[..k])|
    ensures Flatten(zChunks) == Flatten(zChunks[..k]) + Flatten(zChunks[k..])
  {
    assert zChunks == zChunks[..k] + zChunks[k..];
    FlattenAppend(zChunks[..k], zChunks[k..]);
    if k == 0 {
    } else {
      OffsetIsPosition(zChunks, k - 1);
      assert zChunks[..k] == zChunks[..k - 1] + [zChunks[k - 1]];
      FlattenSnoc(zChunks[..k - 1], zChunks[k - 1]);
    }
  }
}
