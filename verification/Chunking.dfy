/** How a stream of bytes is cut into chunks, and the abstract codec that compresses one chunk. */
module Chunking {
  import opened Wrappers

  newtype byte = x: int | 0 <= x < 256

  /** Deflate and inflate of one chunk, and the bytes that end the deflate stream. */
  datatype Codec = Codec(
    deflate: seq<byte> -> seq<byte>,
    inflate: seq<byte> -> Option<seq<byte>>,
    finish: seq<byte>)

  /** These chunks can be inflated again, and their compressed forms fit the output buffer. */
  ghost predicate Faithful(codec: Codec, n: nat, raws: seq<seq<byte>>) {
    forall k :: 0 <= k < |raws| ==>
      codec.inflate(codec.deflate(raws[k])) == Some(raws[k]) && |codec.deflate(raws[k])| <= n
  }

  function Flatten<T>(parts: seq<seq<T>>): seq<T> {
    if parts == [] then [] else parts[0] + Flatten(parts[1..])
  }

  lemma {:induction false} FlattenAppend<T>(a: seq<seq<T>>, b: seq<seq<T>>)
    ensures Flatten(a + b) == Flatten(a) + Flatten(b)
  {
    if a == [] {
      assert a + b == b;
    } else {
      FlattenAppend(a[1..], b);
      assert (a + b)[1..] == a[1..] + b && (a + b)[0] == a[0];
      ConcatAssociates(a[0], Flatten(a[1..]), Flatten(b));
    }
  }

  lemma ConcatAssociates<T>(a: seq<T>, b: seq<T>, c: seq<T>)
    ensures a + (b + c) == a + b + c
  {
  }

  lemma FlattenSnoc<T>(a: seq<seq<T>>, x: seq<T>)
    ensures Flatten(a + [x]) == Flatten(a) + x
  {
    FlattenAppend(a, [x]);
    assert [x][1..] == [] && x + [] == x;
    assert Flatten([x]) == x + Flatten([x][1..]);
  }

  /** The chunks of a stream: full ones, then one with what is left, which is empty only for no data at all. */
  function Chunks(data: seq<byte>, n: nat): (chunks: seq<seq<byte>>)
    requires 0 < n
    ensures 1 <= |chunks|
  {
    if |data| <= n then [data] else [data[..n]] + Chunks(data[n..], n)
  }

  /** What makes a list of chunks well formed. */
  ghost predicate Chunked(chunks: seq<seq<byte>>, n: nat) {
    && chunks != []
    && (forall k :: 0 <= k < |chunks| - 1 ==> |chunks[k]| == n)
    && |chunks[|chunks| - 1]| <= n
    && (1 < |chunks| ==> 0 < |chunks[|chunks| - 1]|)
  }

  /** The chunks are well formed and flatten to the data. */
  lemma {:induction false} ChunksAreChunked(data: seq<byte>, n: nat)
    requires 0 < n
    ensures Chunked(Chunks(data, n), n) && Flatten(Chunks(data, n)) == data
    ensures data != [] ==> Chunks(data, n)[|Chunks(data, n)| - 1] != []
  {
    if |data| <= n {
      FlattenSnoc([], data);
      assert [] + [data] == [data] && Flatten([]) + data == data;
    } else {
      var rest := Chunks(data[n..], n);
      ChunksAreChunked(data[n..], n);
      ChunkedCons(data[..n], rest, n);
      assert Chunks(data, n) == [data[..n]] + rest;
      assert data == data[..n] + data[n..];
    }
  }

  lemma ChunkedCons(first: seq<byte>, rest: seq<seq<byte>>, n: nat)
    requires |first| == n && Chunked(rest, n) && rest[|rest| - 1] != []
    ensures Chunked([first] + rest, n) && Flatten([first] + rest) == first + Flatten(rest)
    ensures ([first] + rest)[|rest|] == rest[|rest| - 1]
  {
    var all := [first] + rest;
    assert all[1..] == rest;
    forall k | 0 <= k < |all| - 1 ensures |all[k]| == n {
      assert 0 < k ==> all[k] == rest[k - 1];
    }
  }

  /** There is only one well-formed list of chunks for given data, however it was written. */
  lemma {:induction false} ChunkedUnique(chunks: seq<seq<byte>>, n: nat)
    requires 0 < n && Chunked(chunks, n)
    ensures Chunks(Flatten(chunks), n) == chunks
  {
    var data := Flatten(chunks);
    var rest := chunks[1..];
    assert chunks == [chunks[0]] + rest;
    assert data == chunks[0] + Flatten(rest);
    if rest == [] {
      assert Flatten(rest) == [] && chunks[0] + [] == chunks[0];
    } else {
      assert forall k :: 0 <= k < |rest| ==> rest[k] == chunks[k + 1];
      ChunkedUnique(rest, n);
      assert data == chunks[0] + Flatten(rest) && |chunks[0]| == n;
      FlattenNonEmpty(rest, |rest| - 1);
      assert data[..n] == chunks[0] && data[n..] == Flatten(rest);
    }
  }

  lemma {:induction false} FlattenNonEmpty<T>(parts: seq<seq<T>>, k: nat)
    requires k < |parts| && parts[k] != []
    ensures Flatten(parts) != []
  {
    if k == 0 {
    } else {
      FlattenNonEmpty(parts[1..], k - 1);
    }
  }

  /** Chunk k holds the bytes from k * n on. */
  lemma {:induction false} ChunkAt(data: seq<byte>, n: nat, k: nat)
    requires 0 < n && k < |Chunks(data, n)|
    ensures 0 <= k * n <= |data| && (k + 1) * n == k * n + n
    ensures k < |Chunks(data, n)| - 1 ==> (k + 1) * n < |data|
    ensures k == |Chunks(data, n)| - 1 ==> |data| <= (k + 1) * n
    ensures Chunks(data, n)[k] == data[k * n..if k == |Chunks(data, n)| - 1 then |data| else (k + 1) * n]
    decreases k
  {
    if k != 0 {
      var rest, start := data[n..], (k - 1) * n;
      assert k * n == start + n && (k + 1) * n == k * n + n;
      assert Chunks(data, n) == [data[..n]] + Chunks(rest, n);
      ChunkAt(rest, n, k - 1);
      var end := if k == |Chunks(data, n)| - 1 then |rest| else k * n;
      assert Chunks(rest, n)[k - 1] == rest[start..end];
      DropSlice(data, n, start, end);
    } else {
      assert 0 * n == 0 && (0 + 1) * n == n;
    }
  }

  lemma DropSlice(data: seq<byte>, n: nat, a: nat, b: nat)
    requires n <= |data| && a <= b <= |data| - n
    ensures data[n..][a..b] == data[n + a..n + b]
  {
  }

  /** Appending the next k elements of s. */
  lemma SliceStep<T>(base: seq<T>, s: seq<T>, i: nat, k: nat)
    requires i + k <= |s|
    ensures base + s[..i] + s[i..i + k] == base + s[..i + k]
  {
    assert s[..i] + s[i..i + k] == s[..i + k];
  }

  /** Full chunks and a tail are the chunks of their bytes just when no empty chunk follows a full one. */
  lemma TailExact(full: seq<seq<byte>>, tail: seq<byte>, n: nat)
    requires 0 < n && |tail| <= n && forall k :: 0 <= k < |full| ==> |full[k]| == n
    ensures Chunks(Flatten(full) + tail, n) == full + [tail] <==> full == [] || tail != []
  {
    FlattenSnoc(full, tail);
    if full == [] || tail != [] {
      ChunkedUnique(full + [tail], n);
    } else {
      FlattenNonEmpty(full, 0);
      assert Flatten(full) + tail == Flatten(full);
      ChunksAreChunked(Flatten(full), n);
    }
  }

  /** k * n for a chunk number, which is -1 while no chunk is loaded. */
  function Start(k: int, n: nat): int
    requires -1 <= k
  {
    if k == -1 then 0 - n else if k == 0 then 0 else Start(k - 1, n) + n
  }

  lemma {:induction false} StartIsProduct(k: int, n: nat)
    requires -1 <= k
    ensures Start(k, n) == k * n
  {
    if k <= 0 {
    } else {
      StartIsProduct(k - 1, n);
      assert k * n == (k - 1) * n + n;
    }
  }

  /** Chunk k stands in the flat data from k * n on. */
  lemma ChunkStands(raws: seq<seq<byte>>, n: nat, k: nat)
    requires 0 < n && Chunked(raws, n) && k < |raws|
    ensures 0 <= k * n && k * n + |raws[k]| <= |Flatten(raws)|
    ensures Flatten(raws)[k * n..k * n + |raws[k]|] == raws[k]
    ensures k == |raws| - 1 ==> k * n + |raws[k]| == |Flatten(raws)|
    ensures k < |raws| - 1 ==> k * n + n < |Flatten(raws)|
  {
    ChunkedUnique(raws, n);
    ChunkAt(Flatten(raws), n, k);
  }

  lemma SubSlice(data: seq<byte>, p: nat, m: nat, g: nat, a: nat)
    requires p + m <= |data| && g + a <= m
    ensures data[p..p + m][g..g + a] == data[p + g..p + g + a]
  {
    var x, y := data[p..p + m], data[p + g..p + g + a];
    forall i | 0 <= i < a ensures x[g..g + a][i] == y[i] {
      assert x[g + i] == data[p + (g + i)];
    }
  }

  lemma DivModLaw(t: int, n: int)
    requires 0 < n
    ensures t == t / n * n + t % n && 0 <= t % n < n
  {
  }

  /** Only the first byte of a chunk stands at a multiple of the chunk length. */
  lemma ChunkInterior(k: int, n: int, g: int)
    requires 0 <= k && 0 <= g < n
    ensures (k * n + g) % n == g && (k * n + g) / n == k
  {
    var x := k * n + g;
    var d := x / n - k;
    assert x == n * (x / n) + x % n;
    assert n * d == g - x % n by { assert n * (x / n - k) == n * (x / n) - n * k; }
    assert 1 <= d ==> n <= n * d;
    assert d <= -1 ==> n * d <= -n;
  }

  /** A position at which a chunk starts. */
  ghost predicate Boundary(n: nat, b: int) {
    0 < n && b % n == 0
  }

  /** Taking a bytes at offset g of chunk k takes the bytes of the flat data at p, and crosses no chunk boundary. */
  lemma TakenBytes(raws: seq<seq<byte>>, n: nat, k: nat, g: nat, a: nat, p: int)
    requires 0 < n && Chunked(raws, n) && k < |raws| && g + a <= |raws[k]| && p == Start(k, n) + g
    ensures 0 <= p && p + a <= |Flatten(raws)| && raws[k][g..g + a] == Flatten(raws)[p..p + a]
    ensures forall b :: p < b < p + a ==> !Boundary(n, b)
    ensures k == |raws| - 1 && g + a == |raws[k]| ==> p + a == |Flatten(raws)|
    ensures g == 0 ==> Boundary(n, p)
  {
    StartIsProduct(k, n);
    ChunkStands(raws, n, k);
    SubSlice(Flatten(raws), k * n, |raws[k]|, g, a);
    ChunkInterior(k, n, 0);
    forall b | p < b < p + a ensures !Boundary(n, b) {
      ChunkInterior(k, n, b - k * n);
    }
  }

  lemma SliceAppend(data: seq<byte>, p: int, q: int, r: int)
    requires 0 <= p <= q <= r <= |data|
    ensures data[p..q] + data[q..r] == data[p..r]
  {
  }
}
