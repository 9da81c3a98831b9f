# Verified model of alpinocorpus

alpinocorpus stores treebanks in compressed, randomly accessible containers, orders and queries them, and brings along
an arbitrary-precision integer. This project models the self-contained parts of it and proves what they are for:

- **InfInt** (`MachineInts`, `Limbs`, `Decimals`, `IntText`, `SquareRoots`, `InfInts`, `InfIntLaws`): signed numbers in
  limbs of base 10^9, changed in place. Every operation is a method over the two fields `val` and `pos` and proved
  against the integers: addition and subtraction through the normaliser, column-wise multiplication, long division with
  a bisected quotient digit, integer square roots, comparison, decimal text. 32-bit limbs, 64-bit carries and the
  product that wraps are written out.
- **Name order** (`Names`, `NameOrder`): the comparison of names with numbers in them is a strict weak order in which
  numbers and characters ascend, and its equivalence is equality without leading zeros.
- **Compact corpora** (`Base64`, `Chunking`, `Container`, `DzHeaders`, `DzFiles`, `DzOstreamBufs`, `DzIstreamBufs`,
  `CompactIndex`, `CompactCorpora`): a chunking writer, a dictzip container described byte by byte, a seeking and
  chunk-caching reader and an index with base-64 numbers together keep one flat sequence of bytes and a map from names
  to slices. Deflate and inflate are a pair of functions; the round trips hold when inflate undoes deflate on the
  chunks written and their compressed forms fit the buffer. The chunk length is a parameter (the program's is 58315);
  time and checksum are parameters. Headers are parsed with any subfields and optional parts, not only as the writer
  leaves them.
- **Macro files** (`MacroTables`, `MacroRuns`, `MacroParser`, `MacroDocuments`, `MacroMeanings`): the table-driven
  parser, with binary search in its tables and positions into the text, computes the run of the grammar it was
  generated from, and accepts exactly the texts of well-formed documents; an error is where the text can no longer
  become one.
- **Lazy iterators** (`Entries`, `FilterIters`, `MultiCorpora`, `Interrupts`): pipelines of filters are list
  comprehensions, iteration over several corpora is concatenation, of which an interrupted one yields a prefix, and
  interruption from another thread is safe and free of deadlock in every interleaving of the steps of both threads.

`Wrappers` holds the type of values that may be missing. Ghost parameters such as `raws`, `data` and `entries` say what
a file was made from; they do not change what is computed.

## Where the code differs from what it seems to promise

- `operator%=` leaves a negative dividend as it is; it is right just when the dividend is not negative or smaller in
  magnitude than the divisor (`ModuloAssignExact`, `ModuloAssignFails`). The binary `%` is right for all signs.
- `operator/=` on an object and itself gives -1 for every negative object (`DivideAssignExact`).
- Unary minus of 0 gives a zero that is not valid (`Negated`).
- `fromString` takes the sign from the chunk that holds it and loses it when all digits in that chunk are 0, as in a
  minus sign, a zero and nine more digits (`SignLost`); such a text denotes the number without its sign, and a chunk
  with the sign alone and zeros behind it gives an invalid zero (`FromString`). A text that is no numeral is accepted;
  when a lower chunk of it is read as negative, the number is not valid.
- Two different names can be one key of a map ordered by `NameCompare` (`LeadingZerosCollide`), so that registering a
  corpus can replace another one while its old name stays (`PushBack`).
- A name that starts with a number comes behind all names that start with another character, although behind common
  text numbers stand where the digits do (`NumbersAmongCharacters`).
- The 16-bit length of the extra field wraps beyond 32762 chunks. The reader gets by with the wrapped length except
  for 32763 and 65531 chunks, when it comes out as 0 and no chunk is found (`RecoveredExactly`,
  `StoredExactly`).
- A chunk that starts with the byte 0xff ends a read that has just loaded it, since the byte compares equal to the end
  of file; an entry across it is delivered with zeros, and every read after it fails (`Xsgetn`, `ReadEntry`,
  `LimitIsUnreadable`).
- The end of the data cannot be sought when the last chunk is full: the program would look for a chunk behind it
  (`EndSeekable`). Reading an empty entry there meets this.
- The progress of an iteration over several corpora ends below 100 unless the last corpus fails (`Progress`, `ReadAll`).
- The trailing carry loop of multiplication is never reached (`NoFinalCarry`).
- A macro file that ends in a comment, or has nothing but white space, is refused (`StopsShort`, `EndsEarly`).
- A name resolves to the longest registered prefix whether or not a slash follows it, so that an entry may lead to
  another corpus than its own (`EntryOf`, `ResolvesElsewhere`), and a filter passes over an entry without a name
  (`RepetitionsAndNoName`).

## Model

| member | source | states |
|---|---|---|
| MachineInts.QuotRemUnique | src/util/InfInt.h:722-774 | the law of truncating division (dividend = quotient times divisor plus remainder, remainder smaller than the divisor and of the sign of the dividend) has one solution only, the quotient and remainder of C++ |
| MachineInts.WrapCancels | src/util/InfInt.h:1347-1353 | a subtrahend that wrapped in 32 bits does no harm when the narrowed difference fits |
| Limbs.CanonicalInjective | src/util/InfInt.h:787-802 | two valid numerals of the same value are the same limbs |
| Limbs.CanonicalSum | src/util/InfInt.h:644-668 | limbs added or subtracted one by one denote the sum or difference, and stay within what the normaliser accepts |
| Limbs.ColumnsMakeProduct | src/util/InfInt.h:670-720 | the sum over all columns of cross products is the product |
| Limbs.NoFinalCarry | src/util/InfInt.h:690-715 | when the column loop stops in the last limb its carry is 0, so that the trailing loop never runs |
| Limbs.DigitProductBound | src/util/InfInt.h:1334-1356 | multiplying by one digit never overflows 64 bits and its carry stays below the factor |
| Limbs.LengthOrder | src/util/InfInt.h:821-852 | of valid numerals the longer one is larger |
| Limbs.LimbOrder | src/util/InfInt.h:821-852 | of numerals of the same length the highest different limb decides |
| Limbs.SignedQuotRem | src/util/InfInt.h:722-774 | dividing magnitudes and setting the signs afterwards is truncating division |
| InfInts.InfInt.TruncateToBase | src/util/InfInt.h:1150-1172 | every limb ends between -BASE and BASE, the signed value stays, and at most one limb is added, for limbs of magnitude up to 2*UPPER_BOUND |
| InfInts.InfInt.SkipZeros | src/util/InfInt.h:1190-1225 | the scan for a limb to borrow from finds one |
| InfInts.InfInt.Borrow | src/util/InfInt.h:1190-1225 | a borrow keeps the value and gives the limb the wanted sign |
| InfInts.InfInt.EqualizeSigns | src/util/InfInt.h:1174-1232 | all limbs get the sign of the value, which stays, and the result tells that sign |
| InfInts.InfInt.RemoveLeadingZeros | src/util/InfInt.h:1234-1248 | only zero limbs at the top go, and one limb is left |
| InfInts.InfInt.Correct | src/util/InfInt.h:1250-1272 | any signed limbs become the valid limbs of the magnitude, and the sign comes out as the code sets it in each of its modes |
| InfInts.InfInt.Plus | src/util/InfInt.h:644-655 | the sum, for all valid operands |
| InfInts.InfInt.Minus | src/util/InfInt.h:657-668 | the difference, for all valid operands |
| InfInts.InfInt.AddAssign | src/util/InfInt.h:530-543 | adds in place, also when an object is added to itself |
| InfInts.InfInt.SubtractAssign | src/util/InfInt.h:545-558 | subtracts in place, also an object from itself |
| InfInts.InfInt.Increment | src/util/InfInt.h:496-502 | adds one |
| InfInts.InfInt.Decrement | src/util/InfInt.h:504-510 | subtracts one |
| InfInts.InfInt.Negated | src/util/InfInt.h:636-642 | the negation; it is valid just when the operand is not 0 |
| InfInts.InfInt.Times | src/util/InfInt.h:670-720 | the product with its sign, for all valid operands |
| InfInts.InfInt.MultiplyAssign | src/util/InfInt.h:560-566 | multiplies in place, also an object by itself |
| InfInts.InfInt.MultiplyByDigit | src/util/InfInt.h:1334-1361 | the limbs of the product with one digit, although part of the computation wraps in 32 bits |
| InfInts.InfInt.TimesDigit | src/util/InfInt.h:776-785 | the product with a machine integer |
| InfInts.InfInt.MultiplyDigitAssign | src/util/InfInt.h:625-634 | the same in place |
| InfInts.InfInt.DInR | src/util/InfInt.h:1306-1332 | the quotient digit found by bisection is the exact one whenever the running remainder is below divisor times BASE |
| InfInts.InfInt.LongDivision | src/util/InfInt.h:722-774 | quotient and remainder of the magnitudes, limb by limb, the running remainder staying below the divisor |
| InfInts.InfInt.DivideBy | src/util/InfInt.h:722-749 | the truncated quotient for all signs; 0 for a divisor 0 |
| InfInts.InfInt.Modulo | src/util/InfInt.h:751-774 | the remainder with the sign of the dividend; 0 for a divisor 0 |
| InfInts.InfInt.DivideAssign | src/util/InfInt.h:568-596 | divides in place; dividing a negative object by itself gives -1, since its sign is read after it was set |
| InfInts.InfInt.ModuloAssign | src/util/InfInt.h:598-623 | the remainder in place for a dividend that is not negative; a negative one stays as it was |
| InfIntLaws.ModuloAssignExact | src/util/InfInt.h:598-623 | the remainder in place is right just when the dividend is not negative or smaller than the divisor in magnitude |
| InfIntLaws.ModuloAssignFails | src/util/InfInt.h:598-623 | an input on which it is wrong: -7 stays -7 instead of becoming -1 modulo 3 |
| InfIntLaws.DivideAssignExact | src/util/InfInt.h:568-596 | division in place is right just when the divisor is another object or the dividend is positive; the quotient of an object by itself is 1 |
| InfInts.InfInt.Equal | src/util/InfInt.h:787-802 | agrees with integer equality |
| InfInts.InfInt.NotEqual | src/util/InfInt.h:804-819 | agrees with integer inequality |
| InfInts.InfInt.Less | src/util/InfInt.h:821-852 | agrees with integer order |
| InfInts.InfInt.LessEqual | src/util/InfInt.h:854-885 | agrees with integer order |
| InfInts.InfInt.Greater | src/util/InfInt.h:887-918 | agrees with integer order |
| InfInts.InfInt.GreaterEqual | src/util/InfInt.h:920-951 | agrees with integer order |
| InfInts.InfInt.NumberOfDigits | src/util/InfInt.h:1022-1032 | the length of the decimal numeral |
| SquareRoots.SqrtStartBounds | src/util/InfInt.h:953-989 | the bounds made from the number of digits bracket the root of every number from 1 on |
| SquareRoots.BracketStep | src/util/InfInt.h:990-1003 | one step of the bisection keeps the root between the bounds |
| SquareRoots.RootUnique | src/util/InfInt.h:972-1005 | a number has one integer root only |
| InfInts.InfInt.OptimizeSqrtSearchBounds | src/util/InfInt.h:953-970 | bounds are only ever narrowed to powers of ten |
| InfInts.InfInt.IntSqrt | src/util/InfInt.h:972-1005 | ends with r*r <= n < (r+1)*(r+1) for every positive n, and with 0 otherwise |
| InfInts.InfInt.FromInt | src/util/InfInt.h:231-256 | the value of a machine integer |
| InfInts.InfInt.FromString | src/util/InfInt.h:1274-1304 | a text of digits denotes its decimal value; one with a minus sign its negation just when the chunk with the sign is seen as negative; any other text has the value of what atoi makes of its nine-character chunks, with the sign of the topmost, and is a valid number just when no lower chunk is read as negative and no zero gets a sign |
| IntText.NumeralLimbs | src/util/InfInt.h:1274-1304 | the chunks of a numeral are the limbs of its magnitude, but for the sign of the topmost, and that sign is noticed just when it is seen |
| InfInts.InfInt.ToText | src/util/InfInt.h:1374-1395 | prints the decimal numeral with its sign |
| IntText.TextRoundTrip | src/util/InfInt.h:1274-1304 | what is printed is a numeral that denotes the number, and its sign is seen when it is parsed |
| Decimals.DigitsInOrder | src/util/InfInt.h:1374-1395 | which digit stands for which number |
| Decimals.EveryDigit | src/util/InfInt.h:1374-1395 | a numeral with every digit, the most significant one first |
| InfIntLaws.NegativeText | src/util/InfInt.h:1374-1395 | what a negative number prints as |
| IntText.TextInjective | src/util/InfInt.h:1374-1395 | different numbers print differently |
| InfIntLaws.SignLost | src/util/InfInt.h:1274-1304 | a minus sign followed by one zero and nine more digits is lost |
| Names.NameIndex | src/util/NameCompare.cpp:14-45 | the loop yields the tokens: an empty one first unless a number leads, runs of digits, and single other characters |
| Names.TokensJoin | src/util/NameCompare.cpp:14-45 | the tokens of a name concatenate to the name |
| Names.NameCompare | src/util/NameCompare.cpp:51-77 | decides the order of the two names that the lemmas of NameOrder below describe |
| NameOrder.NumbersAscend | src/util/NameCompare.cpp:51-77 | of two names that go on with different numbers behind the same text, the one with the smaller number comes first, whatever follows |
| NameOrder.CharactersAscend | src/util/NameCompare.cpp:51-77 | of two names that go on with different characters that are no digits, the one with the smaller character comes first |
| NameOrder.NumbersAmongCharacters | src/util/NameCompare.cpp:14-77 | behind some text a number has its place where the digits have theirs; at the start of a name it comes behind every character |
| NameOrder.BeginningsFirst | src/util/NameCompare.cpp:51-77 | a name comes before those that go on where it ends |
| NameOrder.StrictWeakOrder | src/util/NameCompare.cpp:51-77 | the comparison is a strict weak order on all names |
| NameOrder.EquivalentIffEqualWithoutZeros | src/util/NameCompare.cpp:51-77 | two names are equivalent just when they are equal after leading zeros of digit runs are dropped |
| NameOrder.LeadingZerosCollide | src/util/NameCompare.cpp:51-77 | different names can be equivalent, and so one key of a map |
| Base64.CharIsTableEntry | src/util/base64.hh:14-17 | the alphabet of section 4 of RFC 4648, entry by entry |
| Base64.AlphabetRoundTrip | src/util/base64.hh:14-41 | index and alphabet are inverse |
| Base64.AlphabetComplete | src/util/base64.hh:19-41 | a character has an index just when it is in the alphabet |
| Base64.SixBits | src/util/base64.hh:57-63 | mask and shift select a digit of the positional notation |
| Base64.Encode | src/util/base64.hh:43-66 | the shortest base-64 numeral of a 64-bit number, most significant digit first |
| Base64.Decode | src/util/base64.hh:68-97 | succeeds just on texts of up to 11 characters that are all in the alphabet and whose positional value is below 2^64, and returns that value; otherwise it gives the reason: the rightmost illegal character, a value that is too large, or a legal twelfth character, which would be shifted past the word |
| Base64.SomeNumerals | src/util/base64.hh:43-66 | some numerals, the most significant character first |
| Base64.DecodeChunk | src/util/base64.hh:79-94 | a digit is lost in the shift just when the value would not fit |
| Base64.NumeralRoundTrip | src/util/base64.hh:43-97 | the numeral of a number denotes the number |
| Base64.ShortestIsNumeral | src/util/base64.hh:43-66 | there is only one shortest numeral |
| Chunking.ChunksAreChunked | src/DzOstreamBuf.cpp:243-268 | the chunks of some data are full but for the last, which is not empty unless there is no data, and concatenate to the data |
| Chunking.ChunkedUnique | src/DzOstreamBuf.cpp:243-268 | there is only one such list of chunks, so that it does not depend on how the data was written |
| Chunking.TailExact | src/DzOstreamBuf.cpp:145-156 | full chunks and a rest are the chunks of their bytes just when no empty chunk follows a full one |
| DzOstreamBufs.DzOstreamBuf.FlushBuffer | src/DzOstreamBuf.cpp:120-143 | the buffer becomes one more chunk, with its size noted and its compressed form appended |
| DzOstreamBufs.DzOstreamBuf.Overflow | src/DzOstreamBuf.cpp:145-156 | on a full buffer: flush and keep the byte |
| DzOstreamBufs.DzOstreamBuf.Xsputn | src/DzOstreamBuf.cpp:243-268 | all bytes are accepted, and only full buffers are flushed, each followed by a byte |
| DzOstreamBufs.DzOstreamBuf.WriteChunkInfo | src/DzOstreamBuf.cpp:158-191 | the extra field: length, subfield, version, chunk length, count and sizes, low byte first |
| DzOstreamBufs.DzOstreamBuf.Close | src/DzOstreamBuf.cpp:78-118 | the file is header, extra field, compressed chunks of all data written, end of stream and trailer; byte by byte as FileLeft says, with the checksum and then the size of the data, low byte first, in the last eight bytes |
| DzFiles.FileLeft | src/DzOstreamBuf.cpp:78-241 | every byte of the file: identification, method, flag, time, the numbers of the extra field low byte first and cut to 16 bits, the compressed chunks, the end of the stream, checksum and size |
| Container.U16RoundTrip | src/DzIstreamBuf.cpp:98-132 | two bytes are read back as the number modulo 2^16 |
| Container.OffsetIsPosition | src/DzIstreamBuf.cpp:129-135 | the running sum of sizes is the position of a compressed chunk |
| DzIstreamBufs.DzIstreamBuf.ReadHeader | src/DzIstreamBuf.cpp:142-157 | accepts just the ten-byte gzip headers with deflate and an extra field, and tells what is wrong with any other |
| DzIstreamBufs.DzIstreamBuf.ReadExtra | src/DzIstreamBuf.cpp:96-140 | takes over the chunks of every list of chunks in an extra field of any subfields (section 2.3.1.1 of RFC 1952) and the chunk length of the last one, skips the others, and stops where the subfields end; on a bad one it gives the error |
| DzFiles.AcceptedExactly | src/DzIstreamBuf.cpp:142-157 | which first bytes are accepted, and what is said of the others |
| DzFiles.FlagBits | src/DzIstreamBuf.cpp:159-171 | which bit announces which optional part |
| DzFiles.FieldReadExactly | src/DzIstreamBuf.cpp:106-138 | a subfield is read from just these bytes |
| DzHeaders.ParsedIffFieldsAt | src/DzIstreamBuf.cpp:96-140 | an extra field is parsed to some subfields just when they follow one another from its start to its end or beyond |
| DzHeaders.AnyHeaderParsed | src/DzIstreamBuf.cpp:96-171 | every header with any subfields in any order, and any of name, comment and checksum, is read back in full, up to where the compressed data starts |
| DzHeaders.InfoParsed | src/DzIstreamBuf.cpp:96-140 | the extra field the writer leaves is read back up to the wrap of its 16-bit numbers: the first sizes modulo 2^16, or no list at all when its length wraps to 0 |
| DzIstreamBufs.DzIstreamBuf.Open | src/DzIstreamBuf.cpp:13-36 | opening any container yields the chunks and the chunk length its header describes, and the position right behind its optional parts, or the error of the first part that is bad |
| DzHeaders.RecoveredExactly | src/DzIstreamBuf.cpp:96-140 | the header the writer leaves is always parsed; chunk table and position of the data are recovered just when there are fewer than 65536 chunks and neither 32763 nor 65531, and the number found is given for every count; the length field itself is right up to 32762 |
| DzIstreamBufs.StoredExactly | src/DzOstreamBuf.cpp:78-118 | a file the writer leaves is opened with all its chunks for these numbers of chunks and no others |
| DzIstreamBufs.StoredTable | src/DzOstreamBuf.cpp:78-118 | a file the writer leaves, under a codec that is faithful on the chunks in it, has the header the reader parses, and each chunk where the table says |
| DzIstreamBufs.DzIstreamBuf.ReadChunk | src/DzIstreamBuf.cpp:49-94 | loads a chunk unless it is the current one |
| DzIstreamBufs.DzIstreamBuf.Underflow | src/DzIstreamBuf.cpp:173-184 | shows the next byte as a signed character, loading the next chunk, without moving the position |
| DzIstreamBufs.DzIstreamBuf.TargetPos | src/DzIstreamBuf.cpp:186-200 | the position is chunk number times chunk length plus offset, also before any chunk is loaded |
| DzIstreamBufs.DzIstreamBuf.Seekoff | src/DzIstreamBuf.cpp:186-215 | moves to the position asked for; refuses negative positions and seeks from the end |
| DzIstreamBufs.SeekableWithin | src/DzIstreamBuf.cpp:202-211 | every position before the end of the data can be sought |
| DzIstreamBufs.EndSeekable | src/DzIstreamBuf.cpp:202-211 | the end can be sought just when there is no data or the last chunk is not full |
| DzIstreamBufs.DzIstreamBuf.Xsgetn | src/DzIstreamBuf.cpp:218-241 | delivers the flat data from the position on, across chunks, up to the end or to the first chunk loaded on the way whose first byte is 0xff, and moves there |
| CompactIndex.LineRoundTrip | src/CompactCorpusReaderPrivate.cpp:139-152 | a line of the index is taken apart into what it was made of |
| CompactIndex.IndexRoundTrip | src/CompactCorpusReaderPrivate.cpp:137-157 | the index of any items is read back as these items |
| CompactIndex.NamedIsLast | src/CompactCorpusReaderPrivate.cpp:156-163 | the map finds the last item written under a name, and no other name |
| CompactIndex.ItemIsSlice | src/CompactCorpusWriterPrivate.cpp:39-47 | an item tells where the data of its entry lies |
| CompactIndex.ItemsTile | src/CompactCorpusWriterPrivate.cpp:39-57 | the extents of the items tile the data without gap or overlap |
| CompactCorpora.CompactCorpusWriter.WriteEntry | src/CompactCorpusWriterPrivate.cpp:39-57 | appends the data, and to the index a line of name, offset and size between tabs, both as base-64 numerals |
| CompactCorpora.CompactCorpusReader.ReadIndex | src/CompactCorpusReaderPrivate.cpp:137-157 | reads the whole index, or stops at the first line that cannot be parsed |
| CompactCorpora.CompactCorpusReader.Open | src/CompactCorpusReaderPrivate.cpp:126-157 | opens on the chunks any container describes and the items of any index, or tells which of the two is bad |
| CompactCorpora.CompactCorpusReader.ReadEntry | src/CompactCorpusReaderPrivate.cpp:159-173 | the data last written under the name just when no chunk that starts within it begins with 0xff, and otherwise a failed stream and data that differs; an unknown name is an error |
| CompactCorpora.CompactCorpusReader.GetSize | src/CompactCorpusReaderPrivate.cpp:78-81 | the number of writes |
| CompactCorpora.CompactCorpusReader.GetEntries | src/CompactCorpusReaderPrivate.cpp:67-71 | an iterator over all names in write order |
| CompactCorpora.IndexIter.Next | src/CompactCorpusReaderPrivate.cpp:117-124 | the next name |
| CompactCorpora.TextIsReadable | src/CompactCorpusReaderPrivate.cpp:159-173 | data without the byte 0xff can always be read in full |
| CompactCorpora.LimitIsUnreadable | src/CompactCorpusReaderPrivate.cpp:159-173 | for every chunk length, an entry that cannot be read in full |
| CompactCorpora.ReadDelivers | src/CompactCorpusReaderPrivate.cpp:166-172 | a read that falls short delivers bytes that differ from the data |
| CompactCorpora.CloseAndReopen | src/CompactCorpusWriterPrivate.cpp:39-57 | after closing the writer, a reader opened on its two files holds all entries, under any codec that is faithful on the chunks written |
| MacroTables.TablesHoldDelta | src/parseMacros.cpp:31-116 | the tables hold the transitions and actions of the grammar, for every state and character |
| MacroTables.FindSingle | src/parseMacros.cpp:187-207 | binary search finds the single key if it is there |
| MacroTables.FindKeyRange | src/parseMacros.cpp:212-233 | binary search finds the key range if one holds the character |
| MacroTables.FindTransition | src/parseMacros.cpp:180-238 | the lookup yields the transition of the grammar |
| MacroRuns.SubstitutionsInPlace | src/parseMacros.rl:101-117 | the places recorded for substitutions are in bounds, increasing and disjoint, and hold the names |
| MacroRuns.SubstitutionsExpand | src/parseMacros.rl:78-99 | replacing from right to left is one simultaneous rewrite: known names become their values, unknown ones stay, and inserted text is not looked at again |
| MacroMeanings.NameReplaced | src/parseMacros.rl:78-117 | behind any text that is parsed, a name in a value becomes what it was defined to be, and stays when it was not defined |
| MacroMeanings.NameReplacedInFile | src/parseMacros.rl:50-117 | the same behind printed definitions, read from a file |
| MacroMeanings.PlainTaken | src/parseMacros.rl:78-117 | a value without names is taken as it is |
| MacroMeanings.CommentSkipped | src/parseMacros.rl:119-129 | a comment in front of a definition means nothing |
| MacroMeanings.InsertedStays | src/parseMacros.rl:78-99 | what is put in for a name is not looked at again |
| MacroMeanings.LastCounts | src/parseMacros.rl:78-99 | the last definition of a key counts |
| MacroMeanings.NoOthers | src/parseMacros.rl:78-99 | nothing but the keys of the definitions is defined |
| MacroParser.Substitute | src/parseMacros.cpp:262-273 | the loop replaces from right to left |
| MacroParser.StepLinked | src/parseMacros.cpp:240-310 | the position variables delimit the value and the name being read, in every state |
| MacroParser.StringLength | src/parseMacros.cpp:143-145 | the parser sees what stands before the first NUL |
| MacroParser.ParseText | src/parseMacros.cpp:142-356 | the loop computes the run of the grammar: definitions, an early end, or the position of an error |
| MacroParser.ParseMacros | src/parseMacros.cpp:142-356 | the parser computes that run on the characters before the first NUL |
| MacroDocuments.Accepts | src/parseMacros.rl:119-129 | every well-formed document is accepted with its meaning: names stand for values defined before, the last definition of a key wins |
| MacroDocuments.AcceptsOnly | src/parseMacros.rl:119-129 | whatever is accepted is the text of a well-formed document |
| MacroDocuments.ParsedIffDocument | src/parseMacros.rl:119-129 | a text parses to some definitions just when it is a well-formed document that means them |
| MacroDocuments.ErrorPosition | src/parseMacros.cpp:356-382 | an error is reported at a position just when some well-formed document starts with what stands before it and none with one character more |
| MacroDocuments.EndsEarly | src/parseMacros.cpp:356-359 | the text ends too early just when a well-formed document starts with it and it is none |
| MacroDocuments.StopsShort | src/parseMacros.cpp:356-359 | a text that ends elsewhere, such as behind a comment, is refused with an early end |
| MacroDocuments.CharsSound | src/parseMacros.rl:123-127 | plain text can be a value just when it has no percent sign and no three quotes in a row |
| MacroDocuments.PrintParse | src/parseMacros.rl:119-129 | printed definitions are parsed to the same definitions when no value has a NUL, and otherwise the text ends too early |
| FilterIters.FilterIter.HasNext | src/FilterIter.cpp:60-82 | looks for the next entry without changing what is to come, so that asking again changes nothing |
| FilterIters.FilterIter.Next | src/FilterIter.cpp:95-105 | yields the next entry, or an error when the buffer is empty |
| FilterIters.Query | src/CorpusReader.cpp:540-553 | builds the pipeline of the queries in order |
| FilterIters.Drain | src/FilterIter.cpp:60-105 | a pipeline comes to an end after yielding what its queries select |
| FilterIters.ChainIsComprehension | src/FilterIter.cpp:60-138 | over distinct names that are not empty, a pipeline yields for each name on which all earlier queries find something what the last one finds |
| FilterIters.QueryAll | src/CorpusReader.cpp:540-553 | over distinct names that are not empty: every string the last query finds in a document in which all earlier ones find something, under the name of the document, in order, by position, and nothing else |
| FilterIters.RepetitionsAndNoName | src/FilterIter.cpp:68-77 | an entry without a name, and one that repeats the name just before, is passed over |
| MultiCorpora.MultiCorpusReader.PushBack | src/MultiCorpusReaderPrivate.cpp:75-84 | a corpus takes the place of one under an equivalent name, or gets a place of its own; it is found there afterwards, all other registrations stay, and the order stays |
| MultiCorpora.MultiCorpusReader.CorpusFromPath | src/MultiCorpusReaderPrivate.cpp:86-109 | the corpus of the longest registered prefix |
| MultiCorpora.MultiCorpusReader.EntryFromPath | src/MultiCorpusReaderPrivate.cpp:111-133 | what follows that prefix and one more character; an error if there is nothing |
| MultiCorpora.LongestWins | src/MultiCorpusReaderPrivate.cpp:86-133 | the one longest registered name that starts a path decides which corpus it leads to and which entry, or that the path is too short |
| MultiCorpora.NonePrecedes | src/MultiCorpusReaderPrivate.cpp:86-133 | a path leads nowhere just when no registered name starts it |
| MultiCorpora.ResolvesExactly | src/MultiCorpusReaderPrivate.cpp:86-133 | a yielded name leads back to its corpus and entry just when no longer registered name is a prefix of it |
| MultiCorpora.ResolvesElsewhere | src/MultiCorpusReaderPrivate.cpp:86-133 | registered names and an entry whose full name leads to another corpus |
| MultiCorpora.MultiIter.NextIterator | src/MultiCorpusReaderPrivate.cpp:257-268 | opens corpora until one has an entry, without changing what is to come |
| MultiCorpora.MultiIter.OpenTip | src/MultiCorpusReaderPrivate.cpp:270-297 | a corpus that does not open or refuses the query leaves no iterator |
| MultiCorpora.MultiIter.HasNext | src/MultiCorpusReaderPrivate.cpp:222-228 | tells whether entries are left; raises the interruption when interrupted |
| MultiCorpora.MultiIter.Next | src/MultiCorpusReaderPrivate.cpp:246-255 | yields the next entry under its full name |
| MultiCorpora.MultiIter.Progress | src/MultiCorpusReaderPrivate.cpp:299-307 | undefined just without corpora, between 0 and 100, and 100 just when every corpus has been tried and the last one did not open or refused the query |
| MultiCorpora.PercentGrows | src/MultiCorpusReaderPrivate.cpp:299-307 | progress grows strictly with the number of corpora done with |
| MultiCorpora.ReadAll | src/MultiCorpusReaderPrivate.cpp:222-307 | an uninterrupted run yields entry j of corpus i behind all entries of the corpora before it, under its full name, and nothing else; its progress never goes back, and it ends at 100 just when the last corpus did not open or refused the query |
| MultiCorpora.AllEntriesStand | src/MultiCorpusReaderPrivate.cpp:222-297 | the entries of all corpora that open, by position and number |
| MultiCorpora.ReadUntil | src/MultiCorpusReaderPrivate.cpp:222-255 | a run interrupted in front of any of its calls yields the first entries, two calls for each, is cut short at the first interrupted call, and is whole just when no call of it was interrupted |
| Interrupts.RunKeeps | src/MultiCorpusReaderPrivate.cpp:222-297 | the invariant over flag, mutex and iterator holds after every interleaving of steps |
| Interrupts.TouchesInstalled | src/MultiCorpusReaderPrivate.cpp:235-244 | the interrupting thread only ever touches a fully installed iterator or none, and it is not replaced meanwhile |
| Interrupts.OpensAtMostOneMore | src/MultiCorpusReaderPrivate.cpp:257-268 | at most one more corpus is opened, or tried, after the flag is set |
| Interrupts.LateCallsRaise | src/MultiCorpusReaderPrivate.cpp:222-255 | every call that begins after the flag was set raises the interruption, which the test of the flag on entry brings about, and none does before |
| Interrupts.NeverDeadlocked | src/MultiCorpusReaderPrivate.cpp:235-268 | in every state of every run each thread has a step unless it waits for the mutex that the other one holds, and one of them has a step |
| Interrupts.HolderLetsGo | src/MultiCorpusReaderPrivate.cpp:235-268 | whoever holds the mutex lets go of it after a bounded number of steps of its own |
| Interrupts.FlagStays | src/MultiCorpusReaderPrivate.cpp:235-244 | the flag is never reset |

## Left out

- zlib and CRC32: deflate and inflate are an abstract pair of functions, each call ending in a full flush. What is
  proved of stored files assumes for each chunk written that inflating undoes deflating and that the compressed form is
  no longer than the chunk length, and of no other string; errors of zlib are not modelled. The checksum in the trailer
  is a parameter.
- Overflow: flushing for EOF on a full buffer, which nothing in the program does, is that of the abstract codec; the
  second full flush without input that would follow on closing is refused by zlib.
- File input and output: files are sequences of bytes. Where `fgetc` meets the end of a file inside the header the
  model fails with a truncated file; the program goes on with numbers made from EOF, and loops forever in an optional
  string without its zero.
- Widths of positions and counters: vector sizes, the number of bytes read in one call and the size of a file are
  unbounded in the model, except that a position is below 2^63 and the data of a corpus below 2^64 bytes. The carry of
  a column of a product is unbounded too; it is at most the number of limbs times BASE.
- TimesDigit: does not take the smallest 32-bit integer, whose magnitude has no 32-bit representation.
- MultiplyDigitAssign: does not take it either.
- Decode: a legal twelfth character is shifted by more than the width of the word, which C++ leaves undefined; the
  model gives an error of its own, and counts an index line with such a number as unreadable.
- ReadEntry: an empty entry is read only where its position can be sought (`EndSeekable`); elsewhere the program takes a
  chunk that is not there.
- Seekoff: only within the data, as the program does not check the bound; seeks from the end are refused.
- CloseAndReopen: names contain no tab and no line break, since the index cannot hold them.
- FromString: needs a text that is neither empty nor a minus sign alone, for which the program takes the last limb of
  none.
- InfInt conversions to machine integers, `digitAt`, `size`, the constructors from wider integers, and the stream
  operators: easy members.
- ParseMacros: the text of the error message, of which the model keeps the position. The arrays of the
  automaton are cut into one row for each state, so that the offsets into them do not appear.
- FilterIter: interruption; its flag is reset at every call of `hasNext`. Evaluating a query is a function from query
  and name to a list of strings, so that reading and parsing a document are not part of it. Splitting a query at `+|+`
  is left to the caller.
- Interrupts: the flag is read and written in sequentially consistent steps; what the interrupted iterator itself does
  is not part of it.
- ReadUntil: the interruption comes between two calls; within a call the steps of both threads are those of
  `Interrupts`, which does not say what is yielded.
- MultiIter: opening a corpus with a query is a function with three outcomes; sort orders and copies of iterators are
  not modelled.
- Copying iterators, entry contents other than strings, and the mutexes of the compact corpus.
- Other readers and writers, stylesheets, query validation, directory iteration, the C interface and the command-line
  programs: calls into other libraries.
