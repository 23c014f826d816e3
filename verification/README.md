# Cupcake: a verified model of the coders, parsers and tables below the protocol drivers

Cupcake is an HTTP/1.1 and HTTP/2 library. Below its sockets and connection drivers lie five components with exact jobs, and
this project models them in Dafny and proves that they do those jobs:

* the Huffman coder of HPACK (RFC 7541 section 5.2 and appendix B);
* the path trie that finds the handler for a path, with trailing-star wildcards;
* the byte stream stack: a buffered reader over a source that hands out fragments of any size, a reader and a writer of
  chunked bodies (RFC 7230 section 4.1);
* the HPACK decoder and its dynamic table (RFC 7541 sections 2.3, 4, 5.1 and 6);
* substring search (Horspool) and the number parsers and printers in fixed widths.

`dafny verify dfyconfig.toml` checks everything.

## How the model is laid out

Code that changes things step by step is imperative here too: loops over arrays, classes whose methods reassign their fields,
trie nodes that are rewritten in place on the heap. Each such method is proved against a specification that is written without
it; the laws are then lemmas about the specification.

| file | part |
|---|---|
| `Bits.dfy` | octets, bit strings, 32-bit wrap-around, shifts and ors |
| `HuffmanCode.dfy` | prefix codes and the one-bit walk of their tree; both round trips |
| `CanonicalCode.dfy`, `HuffmanTable.dfy`, `HuffmanSymbols.dfy` | the encode table of the source, proved a complete prefix code; its symbols in order |
| `Huffman.dfy`, `HuffmanAutomaton.dfy` | the bit packer, the nibble automaton, and that such an automaton exists |
| `PathTrie.dfy`, `PathTrieLaws.dfy`, `PathTrieNodes.dfy` | the trie as a value, its laws, and the nodes on the heap |
| `HttpTypes.dfy`, `BufferedReader.dfy` | the adversarial source; the movable, growable window |
| `ChunkedBody.dfy`, `ChunkedReader.dfy`, `ChunkedWriter.dfy` | what a chunked stream means; the state machine; the printer and the round trip |
| `ChunkedFaults.dfy` | how reads of broken and of unfinished bodies end |
| `ReaderCases.dfy` | runs of calls that bring a reader into the states in which it errs |
| `HpackStatic.dfy`, `HpackTable.dfy` | the static table; the size-bounded queue and its runs |
| `HpackInteger.dfy`, `HpackBlock.dfy`, `HpackFields.dfy`, `HpackOutcomes.dfy`, `HpackExamples.dfy`, `HpackDecoder.dfy` | integers, representations and blocks; fields with a name that is misread; what is accepted and refused; the examples of the standard; the cursor that decodes them |
| `Strconv.dfy`, `StrconvPrinters.dfy`, `StrconvSigned.dfy`, `StringSearch.dfy` | numbers and text; substring search |

The names `Decoded`, `ParseBody`, `MapFind`, `Block`, `FirstMatch`, `Value` are the reference meanings; everything else is
related to them.

## Where the code and its intent part

The model follows the code. These are the places in the modelled code where it does not do what its documentation, or the
standard, asks. Each names the member that states the exact extent, and the one that shows an input.

* `readLine` looks at the byte before the window: with a line feed at the start of the window and a carriage return before it
  the length of the line wraps to 2^32 - 1, and only then (`BufferedReader.BufferedReader.ReadLine`). Looking ahead at a line
  end and reading its first byte leads there (`ReaderCases.TornLine`).
* `peekMatch` compares the end of the window, not its length, with the expected length. The answer is exact when the window
  ends up at the front or is long enough; otherwise a window that reaches far enough matches on the bytes it has
  (`BufferedReader.BufferedReader.PeekMatch`, `ReaderCases.PeekTooFar`).
* `discard` reports the end of the stream unless more than the requested number of bytes is left, and started on an empty
  window that is not at the front of the buffer it skips a positive multiple of the start index besides, or 2^32 bytes less
  when the request and the start index pass 32 bits (`BufferedReader.BufferedReader.Discard`, `ReaderCases.StaleDiscard`).
* `readLine` and `discard` never grow a buffer of 0 bytes: with any limit above 0 they answer Eof whatever the stream, and a
  chunked reader delivers nothing (`ChunkedWriter.Transfer`).
* `ChunkedReader::close` reports Eof instead of Ok exactly when the data not yet read fill its buffer of 1024 bytes a whole
  number of times (`ChunkedReader.ChunkedReader.Close`), as for a body without data (`ReaderCases.CloseEmpty`).
* A string literal of HPACK is read back exactly when its payload has 1 to 126 bytes (`HpackBlock.LiteralExact`), since the
  code looks for more length bytes behind 0 instead of behind 127. The empty string is lost (`HpackBlock.EmptyStringLost`).
* The verdict of the Huffman decoder is not looked at. That differs from section 5.2 of RFC 7541 exactly for Huffman payloads
  that are the encoding of no text (`HpackBlock.VerdictExact`), as the bytes 129, 255 show (`HpackBlock.BadPayloadAccepted`).
* HPACK integers wrap modulo 2^32; the result is the number that was written exactly when that fits
  (`HpackInteger.NumberExact`). 2^32 is read as 0 (`HpackInteger.WrapsToZero`), and an index of 0 that comes about that way
  runs into an assertion, which is an outcome of its own here.
* Adding an entry that is larger than the table leaves the table as it is, where section 4.4 of RFC 7541 empties it: the same
  thing exactly when the entry fits or the table is empty (`HpackBlock.AddsByRfc`, `HpackBlock.OversizeKeepsEntries`).
* A size update may set any limit, where section 6.3 asks for an error above the protocol's maximum
  (`HpackBlock.SizeUpdateExact`, `HpackBlock.OversizeUpdateTaken`), and it may come anywhere in a block, where section 4.2 puts
  it at the start (`HpackBlock.LateUpdateTaken`).
* Outside radix 10 the number 0 prints as the empty text, which does not parse (`Strconv.PrintThenParse`,
  `Strconv.ZeroInRadix2`).
* The index of the number parsers has 32 bits. A text of more than 2^32 - 1 characters is refused whatever its value
  (`Strconv.ParseUnsigned`, `Strconv.ParseSigned`, `Strconv.LongOneRefused`), and the loop goes on for ever exactly when the
  first 2^32 characters are all 0 (`Strconv.EndlessExact`).
* The literals that stand for the least 64-bit number are wrong in the odd radices, and in no other
  (`StrconvSigned.Literals`, `StrconvSigned.SignedPrintThenParse`, `StrconvSigned.LeastInRadix3`); what they denote instead
  is between 1212 less and 328 more than 2^63 (`StrconvSigned.WrongLiterals`).
* An empty pattern is found at index 0 wherever the search starts, which is the first match exactly for a start of 0
  (`StringSearch.EmptyPattern`).
* The skip table of the search is filled with a 32-bit counter, which reaches the last index of a pattern exactly when that is
  below 2^32 (`StringSearch.CounterEnds`).

## Model

| member | source | states |
|---|---|---|
| Huffman.PutCode | src/http2/HuffmanEncoding.cpp:23-48 | the inner loop appends exactly the bits of one code, although the shifted value is never masked between bytes |
| Huffman.Encode | src/http2/HuffmanEncoding.cpp:11-56 | the output is the concatenated code words, most significant bit first, then fewer than eight ones up to a byte boundary |
| Huffman.Decode | src/http2/HuffmanEncoding.cpp:58-85 | over any automaton whose cells are four steps of the tree: same symbols, same rejection and same verdict as the one-bit walk, on every input |
| Huffman.NibbleStep | src/http2/HuffmanEncoding.cpp:66-81 | one table cell keeps state, output and acceptance in step with four one-bit steps |
| Huffman.AtMostOneSymbolPerNibble | src/http2/HuffmanEncoding.cpp:73-75 | with codes of at least five bits four steps emit at most one symbol, so one cell suffices |
| HuffmanCode.EncodeThenDecode | src/http2/HuffmanEncoding.cpp:11-85 | decoding an encoding accepts and gives back exactly the bytes, for every byte string and every padding length |
| HuffmanCode.RunReads | src/http2/HuffmanEncoding.cpp:58-85 | a walk over any bits has read the codes of the symbols it met and then the bits of its node, or EOS and more |
| HuffmanCode.DecodeThenEncode | src/http2/HuffmanEncoding.cpp:58-85 | an accepted input is the encoding of what it decodes to |
| HuffmanCode.AcceptsExactlyEncodings | src/http2/HuffmanEncoding.cpp:58-85 | the accepted inputs are precisely the image of the encoder |
| CanonicalCode.CanonicalIsGood | src/http2/HuffmanData.cpp:10-268 | a code numbered consecutively by length has 5 to 30 bits a word, is prefix-free, and no word is a prefix of EOS |
| CanonicalCode.CanonicalIsComplete | src/http2/HuffmanData.cpp:10-268 | such a code leaves no gap: every thirty bits other than EOS begin with a code word |
| HuffmanTable.TableCanonical | src/http2/HuffmanData.cpp:10-268 | the 256 rows of the encode table are such a code |
| HuffmanTable.TableGood | src/http2/HuffmanData.cpp:10-268 | so the table that is shipped is prefix-free against itself and EOS, and complete |
| HuffmanSymbols.EachInPlace | src/http2/HuffmanData.cpp:10-268 | each of the 256 symbols is in the list of its length, at the place that its value says |
| HuffmanSymbols.SymbolsAscend | src/http2/HuffmanData.cpp:10-268 | the symbols of one length, listed as texts and numbers, ascend |
| HuffmanSymbols.FirstValues | src/http2/HuffmanData.cpp:10-268 | the first value of each length is twice the number after the last of the length before, from 0 for five bits |
| HuffmanAutomaton.StepStaysInner | src/http2/HuffmanData.cpp:273-5137 | the walk never leaves the proper prefixes of code words, so finitely many states suffice |
| HuffmanAutomaton.RejectsBeforeSymbols | src/http2/HuffmanData.cpp:273-5137 | a nibble that reaches EOS emits no symbol, so the failing cell needs none |
| HuffmanAutomaton.NodeCount | src/http2/HuffmanData.cpp:273-5137 | such a tree has 256 inner nodes, one for each value of the state byte |
| HuffmanAutomaton.AutomatonExists | src/http2/HuffmanData.cpp:273-5137 | a decode table of the required kind exists for every such code, with 256 rows and states that fit a byte |
| HuffmanAutomaton.ShippedAutomatonExists | src/http2/HuffmanData.cpp:273-5137 | in particular for the encode table that is shipped, so what the decoder requires can be met |
| PathTrieLaws.FindIsMapFind | inc/cupcake/internal/util/PathTrie.h:132-155 | find gives the shortest registered wildcard that is a proper prefix of the path, else the entry of the path itself, else nothing |
| PathTrieLaws.AddLookup | inc/cupcake/internal/util/PathTrie.h:61-130 | an accepted add changes the entry of its own path and no other |
| PathTrieLaws.AddShaped | inc/cupcake/internal/util/PathTrie.h:61-130 | every add keeps the canonical shape: labels non-empty and indexed by their first byte, valueless inner nodes branch |
| PathTrieLaws.AddVerdict | inc/cupcake/internal/util/PathTrie.h:61-130 | an add is refused exactly when its path has an entry, or it is a wildcard above longer paths that all share the next byte |
| PathTrieLaws.RefusedExact | inc/cupcake/internal/util/PathTrie.h:61-130 | what the map refuses: a path it has, or a wildcard other than the star alone above longer paths that all go on with the same byte |
| PathTrieLaws.AddIsMapAdd | inc/cupcake/internal/util/PathTrie.h:24-31 | the same verdict and the same effect as on a plain map; a refused add leaves the trie unchanged |
| PathTrieLaws.Canonical | inc/cupcake/internal/util/PathTrie.h:87-127 | two canonical tries with the same entries are the same trie |
| PathTrieLaws.RunRepresents | inc/cupcake/internal/util/PathTrie.h:24-130 | after any sequence of adds the trie is canonical and represents the map that the adds build |
| PathTrieLaws.RunFinds | inc/cupcake/internal/util/PathTrie.h:24-155 | after any sequence of adds every search answers as the plain map does |
| PathTrieLaws.SameMapSameTrie | inc/cupcake/internal/util/PathTrie.h:61-130 | runs that register the same entries build the same trie |
| PathTrieLaws.AcceptedMap | inc/cupcake/internal/util/PathTrie.h:61-130 | a run of which nothing is refused holds its registrations and nothing else |
| PathTrieLaws.AnyOrder | inc/cupcake/internal/util/PathTrie.h:61-130 | registrations, wildcards included, that are all accepted in two orders build the same trie in both |
| PathTrieLaws.ExactAccepted | inc/cupcake/internal/util/PathTrie.h:61-130 | distinct exact paths are accepted in any order, so they always build one trie |
| PathTrieLaws.OrderMatters | inc/cupcake/internal/util/PathTrie.h:61-130 | one order can be accepted and another refused: a* then ab, but not ab then a* |
| PathTrieLaws.WildcardAlone | inc/cupcake/internal/util/PathTrie.h:24-35 | k* registered alone, also for an empty k, is found for exactly the paths that start with k |
| PathTrieLaws.ExactAlone | inc/cupcake/internal/util/PathTrie.h:24-35 | a pattern without a star at its end, registered alone, is found for itself and nothing else |
| PathTrieLaws.RunFindsWildcard | inc/cupcake/internal/util/PathTrie.h:132-155 | after any run of which nothing is refused the registration whose star is the first above the path is found |
| PathTrieLaws.RunFindsItself | inc/cupcake/internal/util/PathTrie.h:132-155 | if no registered star is above the path, the registration of the path itself is found, or nothing |
| PathTrieNodes.TrieNode.AddNode | inc/cupcake/internal/util/PathTrie.h:61-130 | the nodes, rewritten in place, hold the trie that the insertion on values gives, with its verdict |
| PathTrieNodes.TrieNode.InsertFork | inc/cupcake/internal/util/PathTrie.h:87-99 | a path that leaves a label gets a common node above the cut child and the new leaf |
| PathTrieNodes.TrieNode.InsertShorter | inc/cupcake/internal/util/PathTrie.h:110-120 | a path that ends inside a label gets a shorter node above the cut child |
| PathTrieNodes.TrieNode.Search | inc/cupcake/internal/util/PathTrie.h:132-155 | the search over the nodes finds what the search on values finds |
| PathTrieNodes.FirstDifference | inc/cupcake/internal/util/PathTrie.h:76-85 | the loop finds the first difference, or the end of the shorter text |
| PathTrieNodes.PathTrie.AddNode | inc/cupcake/internal/util/PathTrie.h:24-31 | a pattern is refused exactly as the map refuses it, and otherwise adds its one entry: one that ends with a star, even the star alone, a wildcard for the path before the star, any other an entry for itself |
| PathTrieNodes.PathTrie.FindPath | inc/cupcake/internal/util/PathTrie.h:33-35 | the value that the map of registrations has for the path |
| HttpTypes.StreamSource.Read | inc/cupcake/internal/http/StreamSource.h:19-27 | the source hands out any non-empty fragment, in order, until its end |
| BufferedReader.LineEnd | src/http/BufferedReader.cpp:78-91 | the first line feed of a stream |
| BufferedReader.LineForms | src/http/BufferedReader.cpp:70-144 | a line ends with CR LF, with LF alone or with the stream; its text is without either |
| BufferedReader.Capacity | src/http/BufferedReader.cpp:108-118 | the buffer size at which a search for a line gives up: no smaller than the buffer, and at least the limit unless the buffer has 0 bytes or the limit + 2 wraps |
| BufferedReader.CapacityExact | src/http/BufferedReader.cpp:108-118 | the buffer is doubled until it reaches the limit, and never grows beyond the limit and 2 |
| BufferedReader.ShortLineFits | src/http/BufferedReader.cpp:70-144 | a line of at most maxLength - 2 bytes is never too long, whatever the buffer size, unless maxLength + 2 wraps and the buffer would have to grow |
| BufferedReader.BufferedReader.Read | src/http/BufferedReader.cpp:32-68 | delivers the next bytes of the stream, at least one unless it is over, and loses none; from a window that is not empty it takes the front |
| BufferedReader.BufferedReader.MakeRoom | src/http/BufferedReader.cpp:101-118 | compaction and growth keep the window, and fail only on a full buffer at the limit |
| BufferedReader.BufferedReader.ReadLine | src/http/BufferedReader.cpp:70-144 | the bytes before the first line feed less one carriage return, whatever the fragments; too long, end and torn line end exactly characterised, for every limit and every buffer size |
| BufferedReader.BufferedReader.ReadFixedLength | src/http/BufferedReader.cpp:146-162 | Ok exactly when enough bytes are left, and then those bytes |
| BufferedReader.BufferedReader.PeekMatch | src/http/BufferedReader.cpp:164-212 | takes nothing; a match is a match of as much as the window and the expected bytes share, a mismatch is real, Eof comes exactly when the stream agrees and ends too early, counted from the front of the buffer; exact with the window at the front or long enough |
| BufferedReader.BufferedReader.Discard | src/http/BufferedReader.cpp:214-237 | Ok exactly when more than n bytes are left, and then n are dropped; from an empty window that is not at the front, Ok means that a positive multiple of the start index was skipped as well (or that less 2^32), Eof that nothing is left; what uncrossed indices leave is a tail of the stream |
| ReaderCases.TornLine | src/http/BufferedReader.cpp:70-144 | a look ahead at CR LF and a read of one byte, then readLine: a line of length 2^32 - 1, with any buffer and any limit |
| ReaderCases.StaleDiscard | src/http/BufferedReader.cpp:214-237 | a look ahead and a read of its one byte, then discard: the bytes left are not those that were asked for, on any longer stream |
| ReaderCases.PeekTooFar | src/http/BufferedReader.cpp:164-212 | on the stream a, b, c: after looking ahead at all of it and reading two bytes, c and any other byte are reported to be there |
| ReaderCases.CloseEmpty | src/http/ChunkedReader.cpp:117-129 | closing the reader of a body without data answers Eof |
| ChunkedBody.SizeText | src/http/ChunkedReader.cpp:43-47 | the part of a size line before the first semicolon |
| ChunkedBody.StrictIsLax | src/http/ChunkedReader.cpp:33-114 | a body within the limits and framed by CR LF has one meaning, also to a reader that checks less |
| ChunkedBody.SplitData | src/http/ChunkedReader.cpp:80-99 | delivering a chunk in parts does not change what the stream means |
| ChunkedBody.WrittenMessage | src/http/ChunkedReader.cpp:33-114 | every well-formed body, with extensions and trailers, means its data and leaves what follows it |
| ChunkedReader.ChunkedReader.SkipTrailers | src/http/ChunkedReader.cpp:55-74 | drops lines up to and including the blank one, and nothing behind it |
| ChunkedReader.ChunkedReader.ReadSize | src/http/ChunkedReader.cpp:33-78 | a complete line within the limit that is no size is an error of the client; Eof means that the stream is over |
| ChunkedReader.ChunkedReader.ReadEol | src/http/ChunkedReader.cpp:101-111 | a line behind chunk data that is not blank is an error of the client |
| ChunkedReader.ChunkedReader.Step | src/http/ChunkedReader.cpp:33-114 | one round delivers bytes that the stream means and moves on to a shorter stream; a line that is no size, or not blank behind the data, is an error of the client, and only a stream that is over an end |
| ChunkedReader.ChunkedReader.Read | src/http/ChunkedReader.cpp:23-115 | delivers the body's bytes in order whatever the fragments and read sizes, fills the buffer unless the body ended, then Eof; on any stream an Ok result delivers only what the stream means, and the result is the one that the bytes ahead call for: success, an error of the client, or a premature end |
| ChunkedReader.ChunkedReader.Close | src/http/ChunkedReader.cpp:117-129 | leaves exactly what follows the body; Ok unless the rest of the data is a multiple of 1024 bytes; a fault or an end within the next 1024 bytes of data is reported as such |
| ChunkedFaults.StrictIsFine | src/http/ChunkedReader.cpp:33-114 | reading a body within the limits and framed by CR LF comes to no fault and no premature end |
| ChunkedFaults.BehindChunks | src/http/ChunkedReader.cpp:33-114 | after any chunks, a read that goes beyond their data comes to what the bytes behind them call for |
| ChunkedFaults.BadSize | src/http/ChunkedReader.cpp:35-54 | a line that is no size is a fault |
| ChunkedFaults.BadEol | src/http/ChunkedReader.cpp:101-111 | anything but a line end behind the data of a chunk is a fault |
| ChunkedFaults.CutShort | src/http/ChunkedReader.cpp:33-114 | a stream that is over before a size line, within the data that are needed or before a line end, has ended too early |
| ChunkedFaults.CutTrailers | src/http/ChunkedReader.cpp:55-74 | trailers without a blank line have ended too early |
| ChunkedFaults.ReadToBadSize | src/http/ChunkedReader.cpp:23-115 | any chunks and then a line that is no size: a read within the data delivers them, one beyond them answers with an error of the client |
| ChunkedWriter.WrittenSize | src/http/ChunkedWriter.cpp:29-34 | the printed size is a size line that reads back as the length |
| ChunkedWriter.MessageIsWellFormed | src/http/ChunkedWriter.cpp:24-57 | any list of writes, closed, is a well-formed chunked body |
| ChunkedWriter.WrittenBody | src/http/ChunkedWriter.cpp:24-57 | that body means the concatenation of the writes and ends before whatever follows |
| ChunkedWriter.OctetsExact | src/http/ChunkedWriter.cpp:24-57 | the octets of a write and of the end, spelled out |
| ChunkedWriter.ChunkedWriter.Write | src/http/ChunkedWriter.cpp:24-45 | an empty write adds nothing; any other adds its size, its data and the line ends |
| ChunkedWriter.ChunkedWriter.Close | src/http/ChunkedWriter.cpp:50-57 | adds the last chunk once, however often it is called |
| ChunkedWriter.CloseUnread | src/http/ChunkedReader.cpp:117-129 | what was written, closed unread by the reader: Eof exactly for a multiple of 1024 bytes, and only what follows the body is left |
| ChunkedWriter.Transfer | src/http/ChunkedReader.cpp:23-115 | any writes, any fragmentation, any buffer and any positive read sizes: the concatenated data in order, then Eof, and every byte behind the body unread; with a buffer of 0 bytes nothing at all, and Eof |
| HpackTable.FitExact | src/http2/HpackTable.cpp:158-178 | eviction keeps an entry exactly when it fits together with all newer ones |
| HpackTable.SizeBySection41 | src/http2/HpackTable.cpp:165-185 | an entry counts for its name, its value and 32 bytes |
| HpackTable.ResizeExact | src/http2/HpackTable.cpp:158-163 | after a resize the limit is the new one, and the newest entries that fit it together are there |
| HpackTable.AddExact | src/http2/HpackTable.cpp:165-178 | an add keeps the limit; an entry that fits comes first, before the newest that fit together with it |
| HpackTable.LimitInForce | src/http2/HpackTable.cpp:154-178 | the limit after any run is the argument of its last resize, or the first limit |
| HpackTable.TableIsNewest | src/http2/HpackTable.cpp:158-185 | over any run the table holds the newest accepted entries, in order, within the limit in force |
| HpackTable.EvictionExact | src/http2/HpackTable.cpp:158-185 | over any run of adds and resizes an accepted entry is present exactly when at every later step it and all newer accepted entries fitted the limit then in force |
| HpackTable.HpackTable.Init | src/http2/HpackTable.cpp:154-156 | sets the limit and evicts nothing; the table is within it exactly when its bytes are |
| HpackTable.HpackTable.DropEntry | src/http2/HpackTable.cpp:180-185 | drops the oldest entry and its bytes, of a table that is never empty when it is called |
| HpackTable.HpackTable.Resize | src/http2/HpackTable.cpp:158-163 | the limit is the new one and the counter stays the sum of the entry sizes; exactly the newest entries are kept that fit together |
| HpackTable.HpackTable.Add | src/http2/HpackTable.cpp:165-178 | refuses exactly an entry for which name, value and 32 exceed the limit; otherwise evicts just enough and puts the entry first, with an exact counter; the limit stays, and a table within it stays so |
| HpackTable.OneAddressSpace | src/http2/HpackTable.cpp:187-212 | indices count one sequence, static entries then dynamic ones, from 1 |
| HpackTable.IndicesShift | src/http2/HpackTable.cpp:165-212 | after an add the new entry has index 62 and each survivor moved up by one |
| HpackTable.HpackTable.HasEntryAtIndex | src/http2/HpackTable.cpp:187-194 | holds exactly for the indices of that sequence |
| HpackTable.HpackTable.NameAtIndex | src/http2/HpackTable.cpp:196-203 | the name at that place of the sequence |
| HpackTable.HpackTable.ValueAtIndex | src/http2/HpackTable.cpp:205-212 | the value at that place of the sequence |
| HpackInteger.NumberExact | src/http2/HpackDecoder.cpp:206-267 | the result is the number of section 5.1 exactly when it fits 32 bits, and otherwise 2^32 less |
| HpackInteger.FitsExactly | src/http2/HpackDecoder.cpp:206-267 | accepted are exactly the numbers below 2^32 that end within five bytes |
| HpackInteger.ReadsAsZero | src/http2/HpackDecoder.cpp:206-267 | an index of 0 behind a full prefix is read exactly from the number 2^32 |
| HpackInteger.WrapsToZero | src/http2/HpackDecoder.cpp:206-267 | the five bytes behind a prefix of 127 that stand for 2^32 are read as 0 |
| HpackInteger.WriteThenRead | src/http2/HpackDecoder.cpp:206-267 | every number below 2^32 that does not fit its prefix reads back as itself, using its own bytes only |
| HpackInteger.ReadThenWrite | src/http2/HpackDecoder.cpp:206-267 | what was read is what would be written, exactly when no zero byte pads it |
| HpackBlock.PrefixedWritten | src/http2/HpackDecoder.cpp:50-66 | an integer behind each of the prefixes in use reads back as itself |
| HpackBlock.LiteralExact | src/http2/HpackDecoder.cpp:269-303 | a string, raw or Huffman, reads back with the cursor on its last byte exactly when its payload has 1 to 126 bytes |
| HpackBlock.EmptyStringLost | src/http2/HpackDecoder.cpp:269-303 | the empty string, written as the byte 0, is not read back whatever follows it |
| HpackBlock.VerdictExact | src/http2/HpackDecoder.cpp:269-303 | on any bytes with a payload the answer is the one of section 5.2 exactly when a Huffman payload is the encoding of some text |
| HpackBlock.BadPayloadAccepted | src/http2/HpackDecoder.cpp:269-303 | a Huffman string of the single byte 255 is taken as the empty text, where section 5.2 asks for an error |
| HpackBlock.AddsByRfc | src/http2/HpackTable.cpp:165-178 | the table follows section 4.4 exactly when the entry fits or nothing is there to drop |
| HpackBlock.OversizeKeepsEntries | src/http2/HpackTable.cpp:165-178 | a table of 40 bytes keeps its entry of 33 when one of 41 is refused, where section 4.4 empties it |
| HpackBlock.SizeUpdateExact | src/http2/HpackDecoder.cpp:179-195 | a size update follows section 6.3 exactly when its limit is not above the maximum |
| HpackBlock.OversizeUpdateTaken | src/http2/HpackDecoder.cpp:179-195 | an update to 4097 is carried out, where section 6.3 with a maximum of 4096 asks for an error |
| HpackBlock.LateUpdateTaken | src/http2/HpackDecoder.cpp:19-48 | a size update to 0 behind an indexed field is carried out: the table is empty with limit 0 |
| HpackBlock.NameWritten | src/http2/HpackDecoder.cpp:81-105 | the name of a literal field is read back with the cursor on its last byte exactly when it is an index, or a string of 1 to 126 payload bytes |
| HpackFields.FieldExact | src/http2/HpackDecoder.cpp:50-195 | a representation of section 6 does what it means and leaves the cursor on its last byte exactly when its strings have 1 to 126 payload bytes and, for one that is indexed, the entry fits or the table is empty; no value of at most 126 bytes, and no raw value behind a raw name, makes up for a misread name |
| HpackFields.NotBothRead | src/http2/HpackDecoder.cpp:81-105 | a name that is not read back and a value never both come out, on their own bytes |
| HpackFields.ReadLate | src/http2/HpackDecoder.cpp:269-303 | a Huffman text whose encoding, read one byte late, gives the text again has 127 bytes and ends with 1: it is 203 times 0 |
| HpackBlock.BlockWritten | src/http2/HpackDecoder.cpp:19-48 | a list of representations decodes to the headers and the dynamic table that it means |
| HpackBlock.BlockKeepsLimit | src/http2/HpackDecoder.cpp:19-48 | no block, whatever its bytes, brings the dynamic table above its limit |
| HpackOutcomes.PrefixedExact | src/http2/HpackDecoder.cpp:50-66 | an integer is in its prefix, or behind a full prefix in at most five bytes |
| HpackOutcomes.LengthExact | src/http2/HpackDecoder.cpp:269-287 | the length of a string: seven bits, or behind a zero a number of 127 and more |
| HpackOutcomes.StringExact | src/http2/HpackDecoder.cpp:269-303 | a string is accepted exactly when as many bytes are left as it asks for; its text is these bytes or their decoding |
| HpackOutcomes.IndexedExact | src/http2/HpackDecoder.cpp:50-79 | an indexed field is accepted exactly when its index can be read and is in the address space, and adds the entry there; otherwise nothing changes |
| HpackOutcomes.NameExact | src/http2/HpackDecoder.cpp:81-105 | a name is accepted exactly when its index is in the address space or, without index, a string follows |
| HpackOutcomes.LiteralFieldExact | src/http2/HpackDecoder.cpp:81-177 | a literal field is accepted exactly when its name is and a string follows; it adds that header, and to the table if its first byte is 64 or more; a refused one changes nothing |
| HpackOutcomes.SizeUpdateFieldExact | src/http2/HpackDecoder.cpp:179-195 | a size update is accepted exactly when its number is; it sets that limit and keeps the newest entries that fit |
| HpackOutcomes.NoSuchEntry | src/http2/HpackDecoder.cpp:50-79 | the block 0xBE on an empty dynamic table is refused |
| HpackOutcomes.BlockBehind | src/http2/HpackDecoder.cpp:19-48 | bytes behind written representations are read as on their own, with what these mean |
| HpackOutcomes.RefusedBlock | src/http2/HpackDecoder.cpp:19-48 | a field that is refused ends the block; what came before it has been done, and nothing else |
| HpackExamples.FirstRequest | src/http2/HpackDecoder.cpp:19-48 | the request of appendix C.3.1 decodes to its four headers and its table |
| HpackExamples.SecondRequest | src/http2/HpackDecoder.cpp:19-48 | the request of appendix C.3.2: an entry of the first request by its index |
| HpackExamples.ThirdRequest | src/http2/HpackDecoder.cpp:19-48 | the request of appendix C.3.3: an index of the dynamic table and a new name |
| HpackExamples.FirstResponse | src/http2/HpackDecoder.cpp:19-48 | the response of appendix C.5.1 with a table of 256 bytes |
| HpackExamples.SecondResponse | src/http2/HpackDecoder.cpp:19-48 | the response of appendix C.5.2: the new status pushes out the first one |
| HpackDecoder.HpackDecoder.NextByte | src/http2/HpackDecoder.cpp:197-204 | moves on unless the cursor is on or behind the last byte |
| HpackDecoder.HpackDecoder.ReadNumberAfterPrefix | src/http2/HpackDecoder.cpp:206-267 | the number modulo 2^32 with the cursor on its last byte; rejects truncation and an oversize fifth byte, and only these |
| HpackDecoder.HpackDecoder.ReadStringLiteral | src/http2/HpackDecoder.cpp:269-303 | what any bytes mean as a string to this decoder, the buffer unchanged on failure |
| HpackDecoder.HpackDecoder.ReadIndexedHeaderField | src/http2/HpackDecoder.cpp:50-79 | adds the entry at the index to the headers exactly when the index can be read and is in the address space; rejects index 0, a truncated index and one that is not there, which change nothing |
| HpackDecoder.HpackDecoder.ReadLiteralHeaderIncrementalIndexing | src/http2/HpackDecoder.cpp:81-129 | adds the header and offers it to the table; a failure changes neither |
| HpackDecoder.HpackDecoder.ReadLiteralHeaderNoIndexing | src/http2/HpackDecoder.cpp:131-177 | adds the header and leaves the table alone |
| HpackDecoder.HpackDecoder.ReadTableSizeUpdate | src/http2/HpackDecoder.cpp:179-195 | resizes the table to the number read, exactly when it can be read |
| HpackDecoder.HpackDecoder.Decode | src/http2/HpackDecoder.cpp:19-48 | on any bytes the status, headers and table that they mean; on a written block the headers and the table that were meant |
| Strconv.ParseUnsigned | src/text/Strconv.cpp:558-670 | succeeds exactly on non-empty digit strings of at most 2^32 - 1 characters whose value fits, and returns that value; the result is where the loop with a 32-bit index ends |
| Strconv.ParseSigned | src/text/Strconv.cpp:406-556 | the same with an optional minus sign and the signed range |
| Strconv.DigitCharacters | src/text/Strconv.cpp:8-28 | the digits are 0 to 9, A to F and a to f, and no other characters; printed are those in upper case |
| Strconv.CaseIgnored | src/text/Strconv.cpp:8-28 | a text and the same text with A to F in lower case parse alike, to the same value, in every radix |
| Strconv.LetterPair | src/text/Strconv.cpp:558-613 | the text ff in radix 16 is 255, whatever the case of its letters |
| Strconv.LowerRoundTrip | src/text/Strconv.cpp:8-28 | printed text turned to lower case parses back too, except for the empty text |
| Strconv.TextsExact | src/text/Strconv.cpp:558-670 | accepted unsigned texts are digits of a radix from 2 to 16 whose value is below 2^32 or 2^64 |
| Strconv.SignedTextsExact | src/text/Strconv.cpp:406-556 | accepted signed texts are digits with one minus sign in front or none, up to 2^31 or 2^63 below 0 and one less above |
| Strconv.StaysZero | src/text/Strconv.cpp:590-611 | on such a text the result is 0 and the index has come round after every number of rounds |
| Strconv.EndlessExact | src/text/Strconv.cpp:406-670 | the loop still runs after any number of rounds exactly when the first 2^32 characters are all 0, in a radix from 2 to 16 |
| Strconv.LongOneRefused | src/text/Strconv.cpp:558-670 | 2^32 - 1 zeros and a 1 denote 1, and are refused |
| Strconv.GuardExact | src/text/Strconv.cpp:597-604 | the guard on the quotient rejects exactly the multiplications that would overflow |
| Strconv.AppendDigit | src/text/Strconv.cpp:597-611 | one round of the loop: both guards together refuse exactly the digits that overflow, and nothing overflows between them |
| Strconv.TextValue | src/text/Strconv.cpp:219-255 | the printed digits denote the number |
| Strconv.PrintThenParse | src/text/Strconv.cpp:219-255 | printing then parsing an unsigned number gives it back exactly when it is not 0 or the radix is 10 |
| Strconv.ZeroInRadix2 | src/text/Strconv.cpp:219-255 | in radix 2 the number 0 prints as the empty text, which does not parse |
| Strconv.ParseThenPrint | src/text/Strconv.cpp:219-255 | of the texts of digits exactly those that a printer can have produced print back as themselves: upper-case, without leading zero, and for 0 the one text that the radix gives it |
| Strconv.DigitsBase10Of32 | src/text/Strconv.cpp:103-120 | the comparison tree gives the exact number of digits |
| Strconv.DigitsBase10Of64 | src/text/Strconv.cpp:122-143 | the same for 64 bits, twelve digits at a time |
| StrconvPrinters.PrintDecimal | src/text/Strconv.cpp:145-187 | two digits at a time from the back: exactly the decimal text, and nothing else in the buffer changes |
| StrconvPrinters.PrintRadix | src/text/Strconv.cpp:219-255 | exactly the text in that radix, within a scratch buffer of one digit a bit |
| StrconvPrinters.PrintUnsigned | src/text/Strconv.cpp:317-403 | returns the whole length and stores as much of the text as fits |
| StrconvSigned.Literals | src/text/Strconv.cpp:59-99 | the literals denote the least value in every radix for 32 bits, and in exactly the even ones for 64 |
| StrconvSigned.WrongLiterals | src/text/Strconv.cpp:80-99 | what the literals of 64 bits denote in the seven odd radices: from 1212 less to 328 more than 2^63 |
| StrconvSigned.CharsValue | src/text/Strconv.cpp:59-99 | the characters of a literal denote the number that its digits denote |
| StrconvSigned.SignedTextExact | src/text/Strconv.cpp:257-287 | printed is a minus sign before the digits of a negative number, and the digits alone of any other |
| StrconvSigned.SignedPrintThenParse | src/text/Strconv.cpp:257-287 | printing then parsing a signed number gives it back exactly when it is not 0 or the radix is 10, and it is not the least 64-bit number in an odd radix |
| StrconvSigned.LeastInRadix3 | src/text/Strconv.cpp:80-99 | the least 64-bit number does not survive printing and parsing in radix 3 |
| StrconvSigned.PrintSignedAt | src/text/Strconv.cpp:189-287 | the literal for the least value, else a minus sign and the digits, and nothing else in the buffer changes |
| StrconvSigned.PrintSigned | src/text/Strconv.cpp:293-371 | returns the whole length and stores as much of the text as fits; the temporary buffers suffice |
| StringSearch.FirstMatchUnique | src/text/StringRef.cpp:189-261 | the least match at or after the start is one result |
| StringSearch.EmptyPattern | src/text/StringRef.cpp:189-198 | the answer 0 for an empty pattern is the first match at or after the start exactly for a start of 0 |
| StringSearch.CounterEnds | src/text/StringRef.cpp:240-242 | a 32-bit counter gets to the last index of a pattern exactly when that is below 2^32 |
| StringSearch.BruteForce | src/text/StringRef.cpp:207-222 | the short branch finds the least match at or after the start |
| StringSearch.SkipsNoMatch | src/text/StringRef.cpp:236-257 | a skip of at least one passes over no match |
| StringSearch.Horspool | src/text/StringRef.cpp:224-261 | the skip table finds the same least match, and the search ends |
| StringSearch.IndexOf | src/text/StringRef.cpp:189-261 | both branches give the one result that a caller is promised |

## Left out

- Huffman.Decode: the 4096 cells of the decode table are not written out; the table is a parameter that must satisfy `Automaton`, cell by cell, and `AutomatonExists` proves that one does.
- BufferedReader.BufferedReader.ReadLine: when maxLength + 2 wraps, calls in which a full buffer of fewer bytes than maxLength would have to grow are excluded, since the source would copy it into 0 or 1 bytes; every other limit and buffer size is covered.
- BufferedReader.BufferedReader.MakeRoom: the same exclusion.
- ChunkedReader.ChunkedReader.Read: the outcome is left open (`Unsure`) where a line reaches the limit, so that it may be too long, and behind a bare line feed after chunk data, which readLine can take for a torn line end; both depend on the fragments that arrive.
- HpackFields.FieldExact: excludes a new name with a payload of 0 or more than 126 bytes together with a value of more than 126, one of the two in the Huffman code; and a meaning that refers to an entry which is not there is not defined.
- Strconv.ParseUnsigned: a text that starts with 2^32 zeros is excluded, since the source never returns from it (`EndlessExact`).
- StringSearch.Horspool: the counter that fills the skip table is unbounded here; the source never returns for a pattern of more than 2^32 bytes (`CounterEnds`).
- StringSearch.IndexOf: the same.
- Strconv.ParseSigned: the same exclusion.
- HttpTypes.StreamSource.Read: the error codes of a failing source are not modelled; every source here ends with Eof only.
- Memory that runs out, and the 64-bit width of sizes and addresses.
- How long a line stays valid: the text that readLine returns points into the buffer and is read here before the buffer changes.
- Names in the dynamic table are values here, not references into entries that may be evicted.
- The destructor of the chunked writer, which closes it, and the destructors in general.
- The parsers' overloads with a default radix of 10.
- StringRef: lastIndexOf, the comparisons and the single-character searches; pattern bytes are 0 to 255, without the cast of a signed char.
- The storage of header names and values in RequestData, which only appends; the value table of the static entries has one surplus empty entry, which is not modelled.
- Buffered writer, comma lists, handler map, request and response objects, connection drivers, sockets, scheduling and the operating system.
- The encoder side of HPACK, which the repository does not have; the representations are written here as RFC 7541 section 6 writes them.
