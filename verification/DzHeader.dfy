/** The header of a dictzip container as the reader takes it apart: the fixed part, the subfields of the extra field,
    and what may follow it. */
module DzHeaders {
  import opened Chunking
  import opened Container
  import opened Wrappers

  datatype DzChunk = DzChunk(offset: nat, size: nat)

  datatype OpenError = NotGzip | UnknownMethod | NoExtraField | UnknownVersion | Truncated
  datatype Outcome = Pass | Fail(error: OpenError)

  /** The chunk table the reader should find: running offsets and sizes. */
  function Table(sizes: seq<nat>): (t: seq<DzChunk>)
    ensures |t| == |sizes|
    ensures forall i {:trigger t[i]} :: 0 <= i < |t| ==> t[i] == DzChunk(Offset(sizes, i), sizes[i])
  {
    seq(|sizes|, i requires 0 <= i < |sizes| => DzChunk(Offset(sizes, i), sizes[i]))
  }

  /** From position p on, a file holds these bytes. */
  ghost predicate HoldsAt(file: seq<byte>, p: nat, bytes: seq<byte>) {
    p <= |file| && bytes <= file[p..]
  }

  ghost predicate Small(sizes: seq<nat>) {
    forall i :: 0 <= i < |sizes| ==> sizes[i] < 65536
  }

  lemma HeldByte(file: seq<byte>, p: nat, bytes: seq<byte>, i: nat)
    requires HoldsAt(file, p, bytes) && i < |bytes|
    ensures file[p + i] == bytes[i]
  {
    assert file[p..][i] == file[p + i];
  }

  /** Bytes held at p are held in two parts. */
  lemma HeldParts(file: seq<byte>, p: nat, a: seq<byte>, b: seq<byte>)
    requires HoldsAt(file, p, a + b)
    ensures HoldsAt(file, p, a) && HoldsAt(file, p + |a|, b)
  {
    assert file[p + |a|..] == file[p..][|a|..];
  }

  /** A two-byte number is read back modulo 2^16. */
  lemma HeldU16(file: seq<byte>, p: nat, x: nat, rest: seq<byte>)
    requires HoldsAt(file, p, U16(x) + rest)
    ensures p + 2 <= |file| && U16At(file, p) == Some(x % 65536) && HoldsAt(file, p + 2, rest)
  {
    HeldParts(file, p, U16(x), rest);
    HeldByte(file, p, U16(x), 0);
    HeldByte(file, p, U16(x), 1);
    U16RoundTrip(x);
  }

  lemma SizeHeld(file: seq<byte>, start: nat, sizes: seq<nat>, i: nat)
    requires Small(sizes) && i < |sizes| && HoldsAt(file, start, SizeBytes(sizes))
    ensures U16At(file, start + 2 * i) == Some(sizes[i])
  {
    SizeBytesAt(sizes, i);
    HeldByte(file, start, SizeBytes(sizes), 2 * i);
    HeldByte(file, start, SizeBytes(sizes), 2 * i + 1);
    assert ReadU16(U16(sizes[i])[0], U16(sizes[i])[1]) == sizes[i] by {
      U16RoundTrip(sizes[i]);
      SmallModulo(sizes[i]);
    }
  }

  /** The two-byte number at position p, if the file is long enough. */
  function U16At(file: seq<byte>, p: nat): Option<nat> {
    if p + 2 <= |file| then Some(ReadU16(file[p], file[p + 1])) else None
  }

  /** The first count sizes follow one another from position p on. */
  ghost predicate SizesAt(file: seq<byte>, p: nat, sizes: seq<nat>, count: nat) {
    count <= |sizes| && forall i :: 0 <= i < count ==> U16At(file, p + 2 * i) == Some(sizes[i])
  }

  lemma TableStep(sizes: seq<nat>, i: nat)
    requires i < |sizes|
    ensures Offset(sizes, i + 1) == Offset(sizes, i) + sizes[i]
    ensures Table(sizes)[..i + 1] == Table(sizes)[..i] + [DzChunk(Offset(sizes, i), sizes[i])]
  {
  }

  /** What the reader sees of a chunk table at position p. */
  ghost predicate TableAt(file: seq<byte>, p: nat, n: nat, sizes: seq<nat>) {
    && U16At(file, p) == Some(1) && U16At(file, p + 2) == Some(n) && U16At(file, p + 4) == Some(|sizes| % 65536)
    && SizesAt(file, p + 6, sizes, |sizes| % 65536)
  }

  /** What the reader sees of a subfield with a chunk table at position p. */
  ghost predicate SubfieldAt(file: seq<byte>, p: nat, n: nat, sizes: seq<nat>) {
    && p + 2 <= |file| && file[p] == SI1 && file[p + 1] == SI2 && U16At(file, p + 2).Some?
    && TableAt(file, p + 4, n, sizes)
  }

  /** What the reader sees of the extra field at position p. */
  ghost predicate InfoAt(file: seq<byte>, p: nat, n: nat, sizes: seq<nat>) {
    U16At(file, p) == Some((10 + 2 * |sizes|) % 65536) && SubfieldAt(file, p + 2, n, sizes)
  }

  /** A file written with sizes of 16 bits looks to the reader as it should, up to the width of its numbers. */
  lemma InfoHeld(file: seq<byte>, p: nat, n: nat, sizes: seq<nat>)
    requires Small(sizes) && HoldsAt(file, p, ChunkInfo(n, sizes))
    ensures InfoAt(file, p, n % 65536, sizes)
  {
    InfoBytesHeld(file, p, 10 + 2 * |sizes|, 6 + 2 * |sizes|, n, |sizes|, SizeBytes(sizes));
    ModuloLess(|sizes|);
    TableHeld(file, p + 2 + 4, n % 65536, sizes, |sizes| % 65536);
  }

  lemma InfoBytesHeld(file: seq<byte>, p: nat, xlen: nat, len: nat, n: nat, count: nat, rest: seq<byte>)
    requires HoldsAt(file, p, InfoBytes(xlen, len, n, count, rest))
    ensures U16At(file, p) == Some(xlen % 65536)
    ensures p + 4 <= |file| && file[p + 2] == SI1 && file[p + 2 + 1] == SI2 && U16At(file, p + 2 + 2).Some?
    ensures var table := p + 2 + 4;
            U16At(file, table) == Some(1) && U16At(file, table + 2) == Some(n % 65536)
            && U16At(file, table + 4) == Some(count % 65536) && HoldsAt(file, table + 6, rest)
  {
    var table := U16(1) + (U16(n) + (U16(count) + rest));
    HeldU16(file, p, xlen, [SI1, SI2] + (U16(len) + table));
    SubfieldHeld(file, p + 2, len, table);
    NumbersHeld(file, p + 2 + 4, 1, n, count, rest);
  }

  lemma SubfieldHeld(file: seq<byte>, p: nat, len: nat, table: seq<byte>)
    requires HoldsAt(file, p, [SI1, SI2] + (U16(len) + table))
    ensures p + 2 <= |file| && file[p] == SI1 && file[p + 1] == SI2
    ensures U16At(file, p + 2).Some? && HoldsAt(file, p + 4, table)
  {
    HeldParts(file, p, [SI1, SI2], U16(len) + table);
    HeldByte(file, p, [SI1, SI2], 0);
    HeldByte(file, p, [SI1, SI2], 1);
    HeldU16(file, p + 2, len, table);
  }

  lemma TableHeld(file: seq<byte>, p: nat, n: nat, sizes: seq<nat>, count: nat)
    requires Small(sizes) && count == |sizes| % 65536 && count <= |sizes|
    requires U16At(file, p) == Some(1) && U16At(file, p + 2) == Some(n) && U16At(file, p + 4) == Some(count)
    requires HoldsAt(file, p + 6, SizeBytes(sizes))
    ensures TableAt(file, p, n, sizes)
  {
    AllSizesHeld(file, p + 6, sizes, count);
  }

  lemma NumbersHeld(file: seq<byte>, p: nat, a: nat, b: nat, c: nat, rest: seq<byte>)
    requires HoldsAt(file, p, U16(a) + (U16(b) + (U16(c) + rest)))
    ensures U16At(file, p) == Some(a % 65536) && U16At(file, p + 2) == Some(b % 65536)
    ensures U16At(file, p + 4) == Some(c % 65536) && HoldsAt(file, p + 6, rest)
  {
    HeldU16(file, p, a, U16(b) + (U16(c) + rest));
    HeldU16(file, p + 2, b, U16(c) + rest);
    HeldU16(file, p + 4, c, rest);
  }

  lemma ModuloLess(n: nat)
    ensures n % 65536 <= n
  {
  }

  lemma AllSizesHeld(file: seq<byte>, p: nat, sizes: seq<nat>, count: nat)
    requires Small(sizes) && count <= |sizes| && HoldsAt(file, p, SizeBytes(sizes))
    ensures SizesAt(file, p, sizes, count)
  {
    forall i | 0 <= i < count ensures U16At(file, p + 2 * i) == Some(sizes[i]) {
      SizeHeld(file, p, sizes, i);
    }
  }

  /** A gzip header with an extra field and nothing else optional. */
  ghost predicate HeaderAt(file: seq<byte>) {
    10 <= |file| && file[0] == GZ_ID1 && file[1] == GZ_ID2 && file[2] == GZ_CM_DEFLATE && file[3] == GZ_FLG_EXTRA
  }

  lemma HeaderHeld(file: seq<byte>, mtime: seq<byte>)
    requires |mtime| == 4 && HoldsAt(file, 0, Header(mtime))
    ensures HeaderAt(file)
  {
    HeldByte(file, 0, Header(mtime), 0);
    HeldByte(file, 0, Header(mtime), 1);
    HeldByte(file, 0, Header(mtime), 2);
    HeldByte(file, 0, Header(mtime), 3);
  }

  /** Counting the table's bytes modulo 2^16 never overshoots what the reader takes. */
  lemma ExtraLength(m: nat)
    ensures (10 + 2 * m) % 65536 <= 10 + 2 * (m % 65536)
  {
  }

  datatype Parsed<+T> = Done(value: T) | Failed(error: OpenError)

  /** A subfield of the extra field: a list of chunks, or one of another kind, which is skipped. */
  datatype Field = ChunkList(n: nat, sizes: seq<nat>) | Foreign(si1: byte, si2: byte, len: nat)

  function FieldSize(f: Field): (size: nat)
    ensures 4 <= size
  {
    match f case ChunkList(_, sizes) => 10 + 2 * |sizes| case Foreign(_, _, len) => 4 + len
  }

  /** Two-byte numbers from position p on. */
  function SizesFrom(file: seq<byte>, p: nat, count: nat): (sizes: seq<nat>)
    requires p + 2 * count <= |file|
    ensures |sizes| == count
  {
    seq(count, i requires 0 <= i < count => ReadU16(file[p + 2 * i], file[p + 2 * i + 1]))
  }

  function ParseField(file: seq<byte>, p: nat): Parsed<Field> {
    if |file| < p + 4 then Failed(Truncated)
    else if file[p] != SI1 || file[p + 1] != SI2 then
      Done(Foreign(file[p], file[p + 1], ReadU16(file[p + 2], file[p + 3])))
    else if |file| < p + 6 then Failed(Truncated)
    else if ReadU16(file[p + 4], file[p + 5]) != 1 then Failed(UnknownVersion)
    else if |file| < p + 10 then Failed(Truncated)
    else
      var count := ReadU16(file[p + 8], file[p + 9]);
      if |file| < p + 10 + 2 * count then Failed(Truncated)
      else Done(ChunkList(ReadU16(file[p + 6], file[p + 7]), SizesFrom(file, p + 10, count)))
  }

  /** Subfields are read as long as the position is before the end the extra field announces. */
  function ParseFields(file: seq<byte>, p: nat, end: nat): Parsed<seq<Field>>
    decreases end - p
  {
    if end <= p then Done([]) else
      match ParseField(file, p)
      case Failed(e) => Failed(e)
      case Done(f) => Prepend([f], ParseFields(file, p + FieldSize(f), end))
  }

  function Prepend(before: seq<Field>, parsed: Parsed<seq<Field>>): Parsed<seq<Field>> {
    match parsed case Failed(e) => Failed(e) case Done(fields) => Done(before + fields)
  }

  /** The position behind the first zero from p on. */
  function TextEnd(file: seq<byte>, p: nat): Option<nat>
    decreases |file| - p
  {
    if |file| <= p then None else if file[p] == 0 then Some(p + 1) else TextEnd(file, p + 1)
  }

  predicate HasFlag(flags: byte, flag: byte)
    requires flag != 0
  {
    flags as int / flag as int % 2 == 1
  }

  /** The position behind name, comment and checksum, as far as the flags say that they are there. */
  function OptionalEnd(file: seq<byte>, flags: byte, p: nat): Option<nat> {
    PartsEnd(file, HasFlag(flags, GZ_FLG_NAME), HasFlag(flags, GZ_FLG_COMMENT), HasFlag(flags, GZ_FLG_HCRC), p)
  }

  function PartsEnd(file: seq<byte>, name: bool, comment: bool, checksum: bool, p: nat): Option<nat> {
    var named := if name then TextEnd(file, p) else Some(p);
    if named == None then None else
      var commented := if comment then TextEnd(file, named.value) else named;
      if commented == None then None else Some(if checksum then commented.value + 2 else commented.value)
  }

  /** The check of the fixed part. */
  function CheckHeader(file: seq<byte>): Outcome {
    if |file| < GZ_HEADER_SIZE then Fail(Truncated)
    else if file[0] != GZ_ID1 || file[1] != GZ_ID2 then Fail(NotGzip)
    else if file[2] != GZ_CM_DEFLATE then Fail(UnknownMethod)
    else if !HasFlag(file[3], GZ_FLG_EXTRA) then Fail(NoExtraField)
    else Pass
  }

  /** What a header says: its subfields, and where the compressed data starts. */
  datatype Layout = Layout(fields: seq<Field>, dataOffset: nat)

  /** The subfields of the extra field at position p. */
  function ParseExtra(file: seq<byte>, p: nat): Parsed<seq<Field>> {
    match U16At(file, p)
    case None => Failed(Truncated)
    case Some(xlen) => ParseFields(file, p + 2, p + 2 + xlen)
  }

  function ParseHeader(file: seq<byte>): Parsed<Layout> {
    match CheckHeader(file)
    case Fail(e) => Failed(e)
    case Pass =>
      match ParseExtra(file, GZ_HEADER_SIZE)
      case Failed(e) => Failed(e)
      case Done(fields) =>
        match OptionalEnd(file, file[3], GZ_HEADER_SIZE + 2 + FieldsSize(fields))
        case None => Failed(Truncated)
        case Some(p) => Done(Layout(fields, p))
  }

  function FieldsSize(fields: seq<Field>): nat {
    if fields == [] then 0 else FieldsSize(fields[..|fields| - 1]) + FieldSize(fields[|fields| - 1])
  }

  /** The chunk table of some subfields; offsets start anew in each list of chunks. */
  function AllChunks(fields: seq<Field>): seq<DzChunk> {
    if fields == [] then [] else
      AllChunks(fields[..|fields| - 1]) + ChunksOf(fields[|fields| - 1])
  }

  function ChunksOf(f: Field): seq<DzChunk> {
    match f case ChunkList(_, sizes) => Table(sizes) case Foreign(_, _, _) => []
  }

  /** The chunk length of the last list of chunks. */
  function LastLength(fields: seq<Field>): Option<nat> {
    if fields == [] then None else
      match fields[|fields| - 1]
      case ChunkList(n, _) => Some(n)
      case Foreign(_, _, _) => LastLength(fields[..|fields| - 1])
  }

  lemma FieldsSnoc(fields: seq<Field>, f: Field)
    ensures FieldsSize(fields + [f]) == FieldsSize(fields) + FieldSize(f)
    ensures AllChunks(fields + [f]) == AllChunks(fields) + ChunksOf(f)
    ensures LastLength(fields + [f])
         == match f case ChunkList(n, _) => Some(n) case Foreign(_, _, _) => LastLength(fields)
  {
    assert (fields + [f])[..|fields|] == fields;
  }

  lemma PrependNothing(parsed: Parsed<seq<Field>>)
    ensures Prepend([], parsed) == parsed
  {
    if parsed.Done? {
      assert [] + parsed.value == parsed.value;
    }
  }

  lemma PrependTwice(a: seq<Field>, b: seq<Field>, parsed: Parsed<seq<Field>>)
    ensures Prepend(a, Prepend(b, parsed)) == Prepend(a + b, parsed)
  {
    if parsed.Done? {
      assert a + (b + parsed.value) == a + b + parsed.value;
    }
  }

  /** What the writer's layout is parsed to: one list of as many chunks as the 16-bit count says, or none if the 16-bit
      length came out as 0. */
  lemma InfoParsed(file: seq<byte>, n: nat, sizes: seq<nat>)
    requires HeaderAt(file) && InfoAt(file, 10, n, sizes)
    ensures ParseHeader(file)
         == Done(if (10 + 2 * |sizes|) % 65536 == 0 then Layout([], 12)
                 else Layout([ChunkList(n, sizes[..|sizes| % 65536])], 22 + 2 * (|sizes| % 65536)))
  {
    if (10 + 2 * |sizes|) % 65536 == 0 {
      HeaderParsed(file, []);
    } else {
      var f := ChunkList(n, sizes[..|sizes| % 65536]);
      InfoExtra(file, n, sizes);
      OneField(f);
      HeaderParsed(file, [f]);
    }
  }

  /** How many chunks the reader finds when m were written: none if the 16-bit length of the extra field came
      out as 0, and otherwise as many as the 16-bit count says. */
  function ChunksFound(m: nat): nat {
    if (10 + 2 * m) % 65536 == 0 then 0 else m % 65536
  }

  lemma FoundExactly(m: nat)
    ensures ChunksFound(m) == m <==> m < 65536 && m != 32763 && m != 65531
  {
  }

  /** The writer's layout is always parsed, and that many chunks are found in it. The chunk table and the position of
      the data are read back for these chunk counts and no others, although the length of the extra field fits its 16
      bits only up to 32762. */
  lemma RecoveredExactly(file: seq<byte>, n: nat, sizes: seq<nat>)
    requires HeaderAt(file) && InfoAt(file, 10, n, sizes)
    ensures ParseHeader(file).Done?
    ensures var layout, m := ParseHeader(file).value, |sizes|;
            && |AllChunks(layout.fields)| == ChunksFound(m)
            && (AllChunks(layout.fields) == Table(sizes) <==> m < 65536 && m != 32763 && m != 65531)
            && (layout.dataOffset == 22 + 2 * m <==> m < 65536 && m != 32763 && m != 65531)
    ensures U16At(file, 10) == Some(10 + 2 * |sizes|) <==> |sizes| <= 32762
  {
    InfoParsed(file, n, sizes);
    var m := |sizes|;
    FoundExactly(m);
    LengthFits(m);
    if (10 + 2 * m) % 65536 != 0 {
      FoundInList(n, sizes, m % 65536);
    }
  }

  lemma LengthFits(m: nat)
    ensures (10 + 2 * m) % 65536 == 10 + 2 * m <==> m <= 32762
    ensures m % 65536 == m <==> m < 65536
  {
  }

  lemma FoundInList(n: nat, sizes: seq<nat>, k: nat)
    requires k <= |sizes|
    ensures |AllChunks([ChunkList(n, sizes[..k])])| == k
    ensures AllChunks([ChunkList(n, sizes[..k])]) == Table(sizes) <==> k == |sizes|
  {
    OneField(ChunkList(n, sizes[..k]));
    if k == |sizes| {
      assert sizes[..k] == sizes;
    }
  }

  lemma HeaderParsed(file: seq<byte>, fields: seq<Field>)
    requires HeaderAt(file) && ParseExtra(file, 10) == Done(fields)
    ensures ParseHeader(file) == Done(Layout(fields, 12 + FieldsSize(fields)))
  {
  }

  lemma InfoExtra(file: seq<byte>, n: nat, sizes: seq<nat>)
    requires InfoAt(file, 10, n, sizes) && (10 + 2 * |sizes|) % 65536 != 0
    ensures ParseExtra(file, 10) == Done([ChunkList(n, sizes[..|sizes| % 65536])])
  {
    var f, end := ChunkList(n, sizes[..|sizes| % 65536]), 12 + (10 + 2 * |sizes|) % 65536;
    InfoField(file, n, sizes);
    ExtraLength(|sizes|);
    assert ParseFields(file, 12 + FieldSize(f), end) == Done([]);
    assert [f] + [] == [f];
  }

  lemma OneField(f: Field)
    ensures FieldsSize([f]) == FieldSize(f) && AllChunks([f]) == ChunksOf(f)
    ensures LastLength([f]) == match f case ChunkList(n, _) => Some(n) case Foreign(_, _, _) => None
  {
    assert [] + [f] == [f];
    FieldsSnoc([], f);
    assert [] + ChunksOf(f) == ChunksOf(f);
  }

  /** The writer's layout as long as no 16-bit number in it wraps to something else that matters. */
  lemma WholeLayout(file: seq<byte>, n: nat, sizes: seq<nat>) returns (layout: Layout)
    requires HeaderAt(file) && InfoAt(file, 10, n, sizes)
    requires |sizes| < 65536 && |sizes| != 32763 && |sizes| != 65531
    ensures ParseHeader(file) == Done(layout) && layout.dataOffset == 22 + 2 * |sizes|
    ensures AllChunks(layout.fields) == Table(sizes) && LastLength(layout.fields) == Some(n)
  {
    NoWrap(|sizes|);
    var f := ChunkList(n, sizes);
    assert f == ChunkList(n, sizes[..|sizes| % 65536]);
    InfoExtra(file, n, sizes);
    OneField(f);
    HeaderParsed(file, [f]);
    layout := Layout([f], 22 + 2 * |sizes|);
  }

  lemma NoWrap(count: nat)
    requires count < 65536 && count != 32763 && count != 65531
    ensures count % 65536 == count && (10 + 2 * count) % 65536 != 0
  {
  }

  lemma InfoField(file: seq<byte>, n: nat, sizes: seq<nat>)
    requires InfoAt(file, 10, n, sizes)
    ensures ParseField(file, 12) == Done(ChunkList(n, sizes[..|sizes| % 65536]))
  {
    var count := |sizes| % 65536;
    assert SizesAt(file, 22, sizes, count) && 22 + 2 * count <= |file| by {
      if count != 0 {
        assert U16At(file, 22 + 2 * (count - 1)) == Some(sizes[count - 1]);
      }
    }
    assert SizesFrom(file, 22, count) == sizes[..count] by {
      forall i | 0 <= i < count ensures SizesFrom(file, 22, count)[i] == sizes[i] {
        assert U16At(file, 22 + 2 * i) == Some(sizes[i]);
      }
    }
  }

  /** A subfield as it may be written: a list of chunks, or any bytes under another identification. */
  datatype Piece = Listing(n: nat, sizes: seq<nat>) | Other(si1: byte, si2: byte, data: seq<byte>)

  /** Its numbers have 16 bits, and another identification is another one. */
  ghost predicate Fits(piece: Piece) {
    match piece
    case Listing(n, sizes) => n < 65536 && |sizes| < 65536 && Small(sizes)
    case Other(si1, si2, data) => |data| < 65536 && (si1 != SI1 || si2 != SI2)
  }

  ghost predicate AllFit(pieces: seq<Piece>) {
    pieces == [] || (Fits(pieces[0]) && AllFit(pieces[1..]))
  }

  function PieceBytes(piece: Piece): (bytes: seq<byte>)
    ensures |bytes| == FieldSize(FieldOf(piece))
  {
    match piece
    case Listing(n, sizes) =>
      [SI1, SI2] + (U16(6 + 2 * |sizes|) + (U16(1) + (U16(n) + (U16(|sizes|) + SizeBytes(sizes)))))
    case Other(si1, si2, data) => [si1, si2] + (U16(|data|) + data)
  }

  /** What is to be read of it. */
  function FieldOf(piece: Piece): Field {
    match piece
    case Listing(n, sizes) => ChunkList(n, sizes)
    case Other(si1, si2, data) => Foreign(si1, si2, |data|)
  }

  function Codes(pieces: seq<Piece>): seq<seq<byte>> {
    if pieces == [] then [] else [PieceBytes(pieces[0])] + Codes(pieces[1..])
  }

  function PiecesBytes(pieces: seq<Piece>): seq<byte> {
    Flatten(Codes(pieces))
  }

  function FieldsOf(pieces: seq<Piece>): seq<Field> {
    if pieces == [] then [] else [FieldOf(pieces[0])] + FieldsOf(pieces[1..])
  }

  lemma ParsePiece(file: seq<byte>, p: nat, piece: Piece)
    requires Fits(piece) && HoldsAt(file, p, PieceBytes(piece))
    ensures ParseField(file, p) == Done(FieldOf(piece))
  {
    match piece {
      case Listing(n, sizes) => ParseListing(file, p, n, sizes);
      case Other(si1, si2, data) => ParseOther(file, p, si1, si2, data);
    }
  }

  lemma ParseOther(file: seq<byte>, p: nat, si1: byte, si2: byte, data: seq<byte>)
    requires |data| < 65536 && (si1 != SI1 || si2 != SI2)
    requires HoldsAt(file, p, [si1, si2] + (U16(|data|) + data))
    ensures ParseField(file, p) == Done(Foreign(si1, si2, |data|))
  {
    HeldParts(file, p, [si1, si2], U16(|data|) + data);
    HeldByte(file, p, [si1, si2], 0);
    HeldByte(file, p, [si1, si2], 1);
    HeldU16(file, p + 2, |data|, data);
    SmallModulo(|data|);
  }

  lemma ParseListing(file: seq<byte>, p: nat, n: nat, sizes: seq<nat>)
    requires n < 65536 && |sizes| < 65536 && Small(sizes)
    requires HoldsAt(file, p, PieceBytes(Listing(n, sizes)))
    ensures ParseField(file, p) == Done(ChunkList(n, sizes))
  {
    var count := U16(|sizes|) + SizeBytes(sizes);
    HeldParts(file, p, [SI1, SI2], U16(6 + 2 * |sizes|) + (U16(1) + (U16(n) + count)));
    HeldByte(file, p, [SI1, SI2], 0);
    HeldByte(file, p, [SI1, SI2], 1);
    HeldU16(file, p + 2, 6 + 2 * |sizes|, U16(1) + (U16(n) + count));
    HeldU16(file, p + 4, 1, U16(n) + count);
    HeldU16(file, p + 6, n, count);
    HeldU16(file, p + 8, |sizes|, SizeBytes(sizes));
    SmallModulo(n);
    SmallModulo(|sizes|);
    SizesHeld(file, p + 10, sizes);
  }

  lemma SizesHeld(file: seq<byte>, p: nat, sizes: seq<nat>)
    requires Small(sizes) && HoldsAt(file, p, SizeBytes(sizes))
    ensures p + 2 * |sizes| <= |file| && SizesFrom(file, p, |sizes|) == sizes
  {
    forall i | 0 <= i < |sizes| ensures SizesFrom(file, p, |sizes|)[i] == sizes[i] {
      SizeHeld(file, p, sizes, i);
    }
  }

  /** Subfields one after the other, from p to the end or beyond. */
  ghost predicate FieldsAt(file: seq<byte>, p: nat, end: nat, fields: seq<Field>)
    decreases |fields|
  {
    if fields == [] then end <= p
    else p < end && ParseField(file, p) == Done(fields[0]) && FieldsAt(file, p + FieldSize(fields[0]), end, fields[1..])
  }

  /** An extra field is parsed to these subfields just when they follow one another in it. */
  lemma {:induction false} ParsedIffFieldsAt(file: seq<byte>, p: nat, end: nat, fields: seq<Field>)
    ensures ParseFields(file, p, end) == Done(fields) <==> FieldsAt(file, p, end, fields)
    decreases |fields|
  {
    if fields == [] {
    } else {
      ParsedIffFieldsAt(file, p + FieldSize(fields[0]), end, fields[1..]);
      assert fields == [fields[0]] + fields[1..];
      if p < end && ParseField(file, p).Done? {
        var f := ParseField(file, p).value;
        FirstOfPrepended(f, ParseFields(file, p + FieldSize(f), end), fields);
      }
    }
  }

  lemma FirstOfPrepended(f: Field, parsed: Parsed<seq<Field>>, fields: seq<Field>)
    requires fields != []
    ensures Prepend([f], parsed) == Done(fields) <==> f == fields[0] && parsed == Done(fields[1..])
  {
    if parsed.Done? {
      assert ([f] + parsed.value)[0] == f && ([f] + parsed.value)[1..] == parsed.value;
      assert fields == [fields[0]] + fields[1..];
    }
  }

  /** Wherever these bytes stand, the subfield is read from them. */
  ghost predicate Encodes(code: seq<byte>, f: Field) {
    |code| == FieldSize(f) && forall file, p: nat :: HoldsAt(file, p, code) ==> ParseField(file, p) == Done(f)
  }

  ghost predicate EncodeAll(codes: seq<seq<byte>>, fields: seq<Field>)
    decreases |codes|
  {
    if codes == [] then fields == []
    else fields != [] && Encodes(codes[0], fields[0]) && EncodeAll(codes[1..], fields[1..])
  }

  lemma {:induction false} PiecesEncode(pieces: seq<Piece>)
    requires AllFit(pieces)
    ensures EncodeAll(Codes(pieces), FieldsOf(pieces))
  {
    if pieces == [] {
    } else {
      PieceEncodes(pieces[0]);
      PiecesEncode(pieces[1..]);
      EncodeCons(PieceBytes(pieces[0]), FieldOf(pieces[0]), Codes(pieces[1..]), FieldsOf(pieces[1..]));
    }
  }

  lemma PieceEncodes(piece: Piece)
    requires Fits(piece)
    ensures Encodes(PieceBytes(piece), FieldOf(piece))
  {
    forall file, p: nat | HoldsAt(file, p, PieceBytes(piece)) ensures ParseField(file, p) == Done(FieldOf(piece)) {
      ParsePiece(file, p, piece);
    }
  }

  lemma EncodeCons(code: seq<byte>, f: Field, codes: seq<seq<byte>>, fields: seq<Field>)
    requires Encodes(code, f) && EncodeAll(codes, fields)
    ensures EncodeAll([code] + codes, [f] + fields)
  {
    assert ([code] + codes)[1..] == codes && ([f] + fields)[1..] == fields;
  }

  /** Any list of subfields is read from their bytes one after the other. */
  lemma {:induction false} EncodedAt(file: seq<byte>, p: nat, codes: seq<seq<byte>>, fields: seq<Field>, end: nat)
    requires EncodeAll(codes, fields) && HoldsAt(file, p, Flatten(codes)) && end == p + |Flatten(codes)|
    ensures FieldsAt(file, p, end, fields) && FieldsSize(fields) == end - p
    decreases |codes|
  {
    if codes == [] {
    } else {
      var f, more := fields[0], Flatten(codes[1..]);
      assert Flatten(codes) == codes[0] + more;
      HeldParts(file, p, codes[0], more);
      EncodedAt(file, p + FieldSize(f), codes[1..], fields[1..], end);
      assert fields == [f] + fields[1..];
      FieldsAtCons(file, p, end, f, fields[1..]);
      FieldsSizeCons(f, fields[1..]);
    }
  }

  lemma FieldsAtCons(file: seq<byte>, p: nat, end: nat, f: Field, fields: seq<Field>)
    requires p < end && ParseField(file, p) == Done(f) && FieldsAt(file, p + FieldSize(f), end, fields)
    ensures FieldsAt(file, p, end, [f] + fields)
  {
    assert ([f] + fields)[1..] == fields;
  }

  /** What may follow the extra field: a name and a comment, each ended by a zero, and a checksum of two bytes. */
  datatype Rest = Rest(name: Option<seq<byte>>, comment: Option<seq<byte>>, checksum: Option<seq<byte>>)

  function Ended(text: Option<seq<byte>>): seq<byte> {
    if text.Some? then text.value + [0] else []
  }

  function RestBytes(rest: Rest): seq<byte> {
    Ended(rest.name) + (Ended(rest.comment) + Checksum(rest))
  }

  function Checksum(rest: Rest): seq<byte> {
    if rest.checksum.Some? then rest.checksum.value else []
  }

  ghost predicate FitsRest(rest: Rest) {
    && (rest.name.Some? ==> 0 !in rest.name.value)
    && (rest.comment.Some? ==> 0 !in rest.comment.value)
    && (rest.checksum.Some? ==> |rest.checksum.value| == 2)
  }

  /** The flags that announce the extra field and what follows it. */
  predicate Announces(flags: byte, rest: Rest) {
    && HasFlag(flags, GZ_FLG_EXTRA)
    && (HasFlag(flags, GZ_FLG_NAME) <==> rest.name.Some?)
    && (HasFlag(flags, GZ_FLG_COMMENT) <==> rest.comment.Some?)
    && (HasFlag(flags, GZ_FLG_HCRC) <==> rest.checksum.Some?)
  }

  /** A header with any subfields and any of the optional parts; six bytes of the fixed part are of no concern. */
  function AnyHeader(flags: byte, six: seq<byte>, pieces: seq<Piece>, rest: Rest): seq<byte> {
    [GZ_ID1, GZ_ID2, GZ_CM_DEFLATE, flags]
    + (six + (U16(|PiecesBytes(pieces)|) + (PiecesBytes(pieces) + RestBytes(rest))))
  }

  lemma {:induction false} TextHeld(file: seq<byte>, p: nat, text: seq<byte>)
    requires 0 !in text && HoldsAt(file, p, text + [0])
    ensures TextEnd(file, p) == Some(p + |text| + 1)
    decreases |text|
  {
    HeldByte(file, p, text + [0], 0);
    if text == [] {
    } else {
      assert text + [0] == [text[0]] + (text[1..] + [0]);
      HeldParts(file, p, [text[0]], text[1..] + [0]);
      TextHeld(file, p + 1, text[1..]);
    }
  }

  lemma OptionalTextHeld(file: seq<byte>, p: nat, text: Option<seq<byte>>)
    requires (text.Some? ==> 0 !in text.value) && HoldsAt(file, p, Ended(text))
    ensures (if text.Some? then TextEnd(file, p) else Some(p)) == Some(p + |Ended(text)|)
  {
    if text.Some? {
      TextHeld(file, p, text.value);
    }
  }

  lemma RestHeld(file: seq<byte>, p: nat, rest: Rest)
    requires FitsRest(rest) && HoldsAt(file, p, RestBytes(rest))
    ensures PartsEnd(file, rest.name.Some?, rest.comment.Some?, rest.checksum.Some?, p) == Some(p + |RestBytes(rest)|)
  {
    var named := p + |Ended(rest.name)|;
    var commented := named + |Ended(rest.comment)|;
    TextsHeld(file, p, Ended(rest.name), Ended(rest.comment), Checksum(rest));
    OptionalTextHeld(file, p, rest.name);
    OptionalTextHeld(file, named, rest.comment);
    PartsEndAt(file, rest.name.Some?, rest.comment.Some?, rest.checksum.Some?, p, named, commented);
    assert |RestBytes(rest)| == commented - p + |Checksum(rest)|;
  }

  lemma TextsHeld(file: seq<byte>, p: nat, a: seq<byte>, b: seq<byte>, c: seq<byte>)
    requires HoldsAt(file, p, a + (b + c))
    ensures HoldsAt(file, p, a) && HoldsAt(file, p + |a|, b)
  {
    HeldParts(file, p, a, b + c);
    HeldParts(file, p + |a|, b, c);
  }

  lemma PartsEndAt(file: seq<byte>, name: bool, comment: bool, checksum: bool, p: nat, named: nat, commented: nat)
    requires (if name then TextEnd(file, p) else Some(p)) == Some(named)
    requires (if comment then TextEnd(file, named) else Some(named)) == Some(commented)
    ensures PartsEnd(file, name, comment, checksum, p) == Some(if checksum then commented + 2 else commented)
  {
  }

  lemma {:induction false} FieldsSizeCons(f: Field, fields: seq<Field>)
    ensures FieldsSize([f] + fields) == FieldSize(f) + FieldsSize(fields)
  {
    if fields == [] {
      assert [f] + fields == [] + [f];
      FieldsSnoc([], f);
    } else {
      var before, last := fields[..|fields| - 1], fields[|fields| - 1];
      FieldsSizeCons(f, before);
      assert [f] + fields == [f] + before + [last];
      FieldsSnoc([f] + before, last);
    }
  }

  /** What is read behind the extra field decides. */
  lemma ParsedSoFar(file: seq<byte>, fields: seq<Field>, p: nat)
    requires CheckHeader(file) == Pass && ParseExtra(file, 10) == Done(fields) && p == 12 + FieldsSize(fields)
    ensures ParseHeader(file) == match OptionalEnd(file, file[3], p)
                                 case None => Failed(Truncated)
                                 case Some(q) => Done(Layout(fields, q))
  {
  }

  lemma PrefixHeld(file: seq<byte>, bytes: seq<byte>)
    requires bytes <= file
    ensures HoldsAt(file, 0, bytes)
  {
    assert file[0..] == file;
  }

  lemma EncodedParsed(file: seq<byte>, codes: seq<seq<byte>>, fields: seq<Field>, size: nat, end: nat)
    requires EncodeAll(codes, fields) && size == |Flatten(codes)|
    requires CheckHeader(file) == Pass && U16At(file, 10) == Some(size) && HoldsAt(file, 12, Flatten(codes))
    requires OptionalEnd(file, file[3], 12 + size) == Some(end)
    ensures ParseHeader(file) == Done(Layout(fields, end))
  {
    EncodedAt(file, 12, codes, fields, 12 + size);
    ParsedIffFieldsAt(file, 12, 12 + size, fields);
    assert ParseExtra(file, 10) == Done(fields);
    ParsedSoFar(file, fields, 12 + size);
  }

  /** Every header whose extra field fits its 16-bit length is read back in full, and the compressed data is found
      right behind it. */
  lemma AnyHeaderParsed(file: seq<byte>, flags: byte, six: seq<byte>, pieces: seq<Piece>, rest: Rest)
    requires |six| == 6 && Announces(flags, rest) && FitsRest(rest) && |PiecesBytes(pieces)| < 65536
    requires AllFit(pieces) && AnyHeader(flags, six, pieces, rest) <= file
    ensures ParseHeader(file) == Done(Layout(FieldsOf(pieces), |AnyHeader(flags, six, pieces, rest)|))
  {
    PiecesEncode(pieces);
    EncodedHeader(file, flags, six, Codes(pieces), FieldsOf(pieces), rest, AnyHeader(flags, six, pieces, rest));
  }

  lemma EncodedHeader(file: seq<byte>, flags: byte, six: seq<byte>, codes: seq<seq<byte>>, fields: seq<Field>,
                      rest: Rest, header: seq<byte>)
    requires |six| == 6 && Announces(flags, rest) && FitsRest(rest) && |Flatten(codes)| < 65536
    requires EncodeAll(codes, fields) && header <= file
    requires header == [GZ_ID1, GZ_ID2, GZ_CM_DEFLATE, flags]
                       + (six + (U16(|Flatten(codes)|) + (Flatten(codes) + RestBytes(rest))))
    ensures ParseHeader(file) == Done(Layout(fields, |header|))
  {
    var end := PartsHeld(file, flags, six, Flatten(codes), rest);
    EncodedParsed(file, codes, fields, |Flatten(codes)|, end);
  }

  lemma PartsHeld(file: seq<byte>, flags: byte, six: seq<byte>, extra: seq<byte>, rest: Rest) returns (end: nat)
    requires |six| == 6 && Announces(flags, rest) && FitsRest(rest) && |extra| < 65536
    requires [GZ_ID1, GZ_ID2, GZ_CM_DEFLATE, flags] + (six + (U16(|extra|) + (extra + RestBytes(rest)))) <= file
    ensures CheckHeader(file) == Pass && U16At(file, 10) == Some(|extra|) && HoldsAt(file, 12, extra)
    ensures OptionalEnd(file, file[3], 12 + |extra|) == Some(end) && end == 12 + |extra| + |RestBytes(rest)|
  {
    end := 12 + |extra| + |RestBytes(rest)|;
    FixedExtraHeld(file, flags, six, extra, RestBytes(rest));
    RestHeld(file, 12 + |extra|, rest);
  }

  lemma FixedExtraHeld(file: seq<byte>, flags: byte, six: seq<byte>, extra: seq<byte>, last: seq<byte>)
    requires |six| == 6 && HasFlag(flags, GZ_FLG_EXTRA) && |extra| < 65536
    requires [GZ_ID1, GZ_ID2, GZ_CM_DEFLATE, flags] + (six + (U16(|extra|) + (extra + last))) <= file
    ensures CheckHeader(file) == Pass && file[3] == flags && U16At(file, 10) == Some(|extra|)
    ensures HoldsAt(file, 12, extra) && HoldsAt(file, 12 + |extra|, last)
  {
    var more := U16(|extra|) + (extra + last);
    PrefixHeld(file, [GZ_ID1, GZ_ID2, GZ_CM_DEFLATE, flags] + (six + more));
    FixedHeld(file, flags, six, more);
    ExtraHeld(file, extra, last);
  }

  lemma ExtraHeld(file: seq<byte>, extra: seq<byte>, last: seq<byte>)
    requires |extra| < 65536 && HoldsAt(file, 10, U16(|extra|) + (extra + last))
    ensures U16At(file, 10) == Some(|extra|) && HoldsAt(file, 12, extra) && HoldsAt(file, 12 + |extra|, last)
  {
    HeldU16(file, 10, |extra|, extra + last);
    SmallModulo(|extra|);
    HeldParts(file, 12, extra, last);
  }

  lemma FixedHeld(file: seq<byte>, flags: byte, six: seq<byte>, more: seq<byte>)
    requires |six| == 6 && HasFlag(flags, GZ_FLG_EXTRA)
    requires HoldsAt(file, 0, [GZ_ID1, GZ_ID2, GZ_CM_DEFLATE, flags] + (six + more))
    ensures CheckHeader(file) == Pass && file[3] == flags && HoldsAt(file, 10, more)
  {
    var fixed := [GZ_ID1, GZ_ID2, GZ_CM_DEFLATE, flags];
    HeldParts(file, 0, fixed, six + more);
    HeldParts(file, 4, six, more);
    HeldByte(file, 0, fixed, 0);
    HeldByte(file, 0, fixed, 1);
    HeldByte(file, 0, fixed, 2);
    HeldByte(file, 0, fixed, 3);
  }
}
