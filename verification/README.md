# Verified model of btor

btor is a small BitTorrent client: it parses a torrent file, hashes the `info`
dictionary, and announces itself to a tracker over HTTP. This project models the parts of
it that are algorithms rather than calls into the system, in Dafny, and proves what they
are for. `dafny verify dfyconfig.toml` checks everything.

| part | modules |
|---|---|
| Streaming SHA-1 against FIPS 180-4 | `Sha1Spec`, `Sha1`, `Sha1Known` |
| Bencode parser, its captured `info` text, its sum of lengths, the heap it builds | `BencodeSpec`, `BencodeCollect`, `BencodeEncode`, `Bencode`, `BencodeParser`, `BencodeHeap`, `BencodeReach`, `BencodeExamples` |
| Info hash from the torrent to the announce parameter | `Hex`, `InfoHash` |
| Percent coding and base64 | `UrlCodec`, `UrlDecoding`, `Base64` |
| Chunked transfer coding and the line reader | `LineReader`, `Chunked`, `ChunkedWriter`, `ChunkSpelling` |
| Response loop of `Request::send` | `HttpResponse`, `HttpReceiver`, `HttpExact`, `HttpMessage`, `HttpFields` |
| multipart/form-data, written and parsed | `Multipart`, `MultipartParser`, `MultipartHeaders`, `MultipartRoundTrip`, `MultipartCuts`, `MultipartRuns`, `MultipartExact`, `MultipartRefused` |
| Thread pool and the socket shared by client threads | `ThreadPool`, `ThreadPoolProgress`, `ClientSocket`, `ClientStop` |
| Bitfield | `Bitfield` |
| Shared by several parts | `Wrappers`, `Wrapping`, `Text`, `Numbers`, `Spelling`, `Cutting` |

The main results:

- `Sha1.HashPieces`: any run of updates, on a new object or one that was finished before,
  gives the SHA-1 of section 6.1.2 of FIPS 180-4 for the concatenation of all pieces;
  `Sha1Known.Abc` computes the known answer for `abc` from the definitions, round by round.
- `BencodeParser.BParser.ParseBencodedString` with `BencodeSpec.ParseExact`: on every
  input the mutating parser agrees with a pure one, which accepts exactly a grammar.
  `BencodeEncode.RoundTripExactly` and `BencodeCollect.CapturedExactly` say which values
  survive encoding and parsing, and when the captured `info` text is the source text.
- `BencodeReach.ReachableExactly`, `BencodeReach.AllReachableExactly`, `BencodeHeap.SinglePath`: of the objects that
  a parse registers, the result leads to those under no repeated key, by one path each, and
  to no other object; to all of them exactly when no dictionary repeats a key.
- `InfoHash.InfoHashParameter` joins these: from the torrent to the 20 digest bytes that
  the tracker decodes.
- `MultipartExact.PartsExactly`: the items of a body, with whatever header lines say what
  they are, come out of the parser in every cutting exactly when no content can be mistaken
  for a delimiter; `MultipartExact.RoundTripExactly` for what `Post` writes,
  `MultipartExact.RoundTripAtServer` for what a server receives at a time.
- `MultipartRuns.EveryCutOfEntries`: header lines in any order, in any case and spacing, with
  any other lines among them, give exactly the names, types and contents that were written.
  `MultipartRefused` has the bodies that are refused in every cutting.
- `HttpMessage.ChunkedMessage`, `HttpMessage.PlainMessage`: a well-formed response is read as what it
  was put together from, in every cutting.
- `ChunkSpelling.ResponseRead`, `ChunkSpelling.MessageRead`: chunked messages of any peer, with sizes in
  any spelling and with extensions, are read by both decoders. `ChunkSpelling.BrokenExactly`:
  when a message that breaks off is rejected.
- `HttpMessage.CutIndependentExactly`: for every head and every body, what the response loop returns
  does not depend on how `recv` cuts the stream exactly when the body is not longer than
  the Content-Length in force. `HttpResponse.CutIndependence` and
  `HttpExact.CutIndependentExactly` are the same for streams of any shape.
- `ChunkedWriter.RoundTripExactly`: what a content provider writes through the sink, in any
  grouping of its calls, is read back exactly when no turn of it ends with an empty piece
  and no piece is too long; `ChunkedWriter.ReadBackExactly` has the condition for any calls of the
  sink. `HttpReceiver.DecodersAgree`: both decoders undo the writer.
- `ThreadPool.AllDone` and `ThreadPoolProgress.EveryJobIsDone`: in every interleaving each
  job is run exactly once, in order of arrival; left alone, the pool stops after a bounded
  number of steps, and then all jobs are done.
- `ClientSocket.EndLeavesClosedExactly` and `ClientStop.StopIsFinal`: in every interleaving of
  `send`, nested `send` and `stop`, exactly when a request leaves the socket closed, and that
  a `stop` is final unless another `send` begins; `ClientStop.SomeCallGoesOn`: no deadlock.

Where the obvious claim is false of the code, the code is kept, a lemma gives an input that
shows it, and the exact condition is proved:

| claim | an input that breaks it | exactly when it holds |
|---|---|---|
| all of the `info` value is captured | `BencodeCollect.NestedInfoLosesText` | `BencodeCollect.CapturedExactly` |
| every object is reachable | `BencodeReach.RepeatedKeyIsLost` | `BencodeReach.AllReachableExactly` |
| the cutting of a response does not matter | `HttpMessage.OneByteMore` | `HttpMessage.CutIndependentExactly` |
| the cutting of a multipart body does not matter | `MultipartExact.WrongCut`, `MultipartExact.DashesAreAmbiguous` | `MultipartExact.RoundTripExactly` |
| what is written in chunks is read back | `ChunkedWriter.NoEnd`, `Chunked.HugeChunk` | `ChunkedWriter.RoundTripExactly` |
| a chunked message that breaks off is rejected | `ChunkSpelling.BrokenBehindCr` | `ChunkSpelling.BrokenExactly` |
| `stop` during a request closes the socket | `ClientSocket.NestedSendForgetsStop` | `ClientSocket.EndLeavesClosedExactly`, `ClientStop.StopIsFinal` |

## How the model reads the code

- Text is `string`; a byte is a character below 256 where that matters (`AllBytes`).
  SHA-1 works on `bv8` and `bv32`.
- A method and the function it is proved against go together: `Sha1.SHA1.Final` and
  `Sha1Spec.Sha1`, the methods of `BParser` and `BencodeSpec.Parse`, the methods of
  `ResponseReader` and `HttpResponse.Receive`, `MultipartFormDataParser.Parse` and
  `Multipart.Drain`. What is promised is then proved of the functions.
- Exceptions, error returns and running off the end of the input are `Err`, `None`, `Fail`
  or `Failed`.
- `recv` and `read` deliver any non-empty part of what is left of a stream
  (`LineReader.Stream.Read`), or the stream is a list of pieces of which only the
  concatenation is fixed.
- Signed integers that overflow in `parseInteger`, in the string lengths of
  `extractString` and in the accumulator of `base64_encode` wrap around in two's complement,
  as compilers make them do although the language leaves most of it undefined.
- `unsigned long` has 32 bits, as on Windows, where this program runs.
- Where the comments and the code of `btor/bencode.cpp` disagree, the model follows the
  code: `le` and `de` are rejected although the comments call them valid, leading zeros and
  `-0` are accepted although the comments call them invalid, and characters other than
  digits inside an integer are skipped.
- `hide` statements only shorten proofs: they keep the definitions that a proof does not
  need away from the solver.

## Model

| member | source | states |
|---|---|---|
| Sha1.RotLIsRotation | btor/sha1.hpp:70-73 | the shift pair of `rol` is the circular left shift for the three amounts used |
| Sha1.SelectIsCh | btor/sha1.hpp:86-98 | the bit expression of R0 and R1 is the function Ch of section 4.1.1 of FIPS 180-4 |
| Sha1.MajorityIsMaj | btor/sha1.hpp:109-114 | the bit expression of R3 is the function Maj of the standard |
| Sha1.RingNext | btor/sha1.hpp:76-79 | if the ring holds the last 16 schedule words at their indices modulo 16, `blk` gives the next word of the schedule of section 6.1.2 |
| Sha1.RingStep | btor/sha1.hpp:93-96 | overwriting one slot with it keeps the ring the last 16 schedule words |
| Sha1.RoundInPlace | btor/sha1.hpp:86-122 | the two assignments of a call, with the roles handed on, are one round of the standard |
| Sha1.R0 | btor/sha1.hpp:86-90 | rounds 0 to 15: the five roles and the ring go from round t to round t + 1 of the standard |
| Sha1.R1 | btor/sha1.hpp:93-98 | rounds 16 to 19, updating the ring in place |
| Sha1.R2 | btor/sha1.hpp:101-106 | rounds 20 to 39, updating the ring in place |
| Sha1.R3 | btor/sha1.hpp:109-114 | rounds 40 to 59, updating the ring in place |
| Sha1.R4 | btor/sha1.hpp:117-122 | rounds 60 to 79, updating the ring in place |
| Sha1.Transform | btor/sha1.hpp:129-229 | for every digest and block, the digest becomes what 80 steps over the full schedule of section 6.1.2 make of it, and the block counter goes up by one modulo 2^64 |
| Sha1.BufferToBlock | btor/sha1.hpp:232-242 | the 64 bytes become 16 big-endian words |
| Sha1.OneMoreBlock | btor/sha1.hpp:269-272 | compressing one more block extends the hash of the bytes so far |
| Sha1.PaddedInOneBlock | btor/sha1.hpp:288-311 | with room for the length, the padded message of section 5.1.1 is the hashed bytes and the filled buffer with its last two words replaced |
| Sha1.PaddedInTwoBlocks | btor/sha1.hpp:288-311 | without room, it is the filled buffer as a block of its own and a block of zeros with the length |
| Sha1.TotalBits | btor/sha1.hpp:285-286 | the length computed from the wrapping block counter is the length in bits modulo 2^64 |
| Sha1.SHA1.constructor | btor/sha1.hpp:245-248 | a new object stands for the empty message |
| Sha1.SHA1.Reset | btor/sha1.hpp:55-67 | after a reset the object stands for the empty message |
| Sha1.SHA1.Update | btor/sha1.hpp:251-274 | the message grows by exactly the bytes given, wherever the block borders fall |
| Sha1.SHA1.Final | btor/sha1.hpp:283-317 | the result is the SHA-1 of the whole message on both padding paths, and the object is empty again |
| Sha1.HashPieces | btor/sha1.hpp:251-317 | after any run of updates only the concatenation of the pieces matters, also when the object is used again |
| Sha1Spec.ZeroBytesIsSmallest | btor/sha1.hpp:288-294 | the number of padding bytes is the smallest that section 5.1.1 allows |
| Sha1Spec.WordOfIsBigEndian | btor/sha1.hpp:237-240 | the four bytes can be read back from the word, most significant first |
| Sha1Known.Abc | btor/sha1.hpp:55-317 | the hash of `abc` is a9993e36 4706816a ba3e2571 7850c26c 9cd0d89d, by 80 rounds on literals |
| Sha1Known.ConstantsAreRoots | btor/sha1.hpp:86-122 | each round constant is the integer part of 2^30 times the square root of 2, 3, 5 or 10 |
| Sha1Known.LengthOf | btor/sha1.hpp:309-310 | the length field is the number of bits, high word first |
| BencodeSpec.ParseExact | btor/bencode.cpp:59-256 | the pure parser accepts a text with a tree and a rest if and only if the tree is valid in the grammar and the text is its source followed by the rest |
| BencodeSpec.PrefixFree | btor/bencode.cpp:59-256 | a source text of a tree determines the tree and where it ends |
| BencodeEncode.RoundTrip | btor/bencode.cpp:5-29 | parsing the BEP 3 encoding of an encodable value followed by anything returns the value and stops at what follows |
| BencodeEncode.RoundTripExactly | btor/bencode.cpp:128-152 | a value comes back from its encoding if and only if it is encodable: no empty containers, integers under `length`, sizes in range |
| BencodeEncode.EncodingsArePrefixFree | btor/bencode.cpp:59-256 | no encoding of an encodable value is a proper prefix of another |
| BencodeExamples.ListEncoded | btor/bencode.cpp:5-29 | the example `l4:spam4:eggse` of BEP 3 |
| BencodeExamples.DictionaryParsed | btor/bencode.cpp:112-155 | `d3:cow3:mooe` is parsed to the dictionary that it is in BEP 3 |
| BencodeCollect.CapturedExactly | btor/bencode.cpp:95-105 | a parse appends exactly the source text of the outermost `info` values if and only if none of them holds an `info` key |
| BencodeCollect.SoleInfo | btor/bencode.cpp:132-146 | with one `info` key at any depth, its entry is a slice of the source |
| BencodeCollect.CapturedSlice | btor/bencode.cpp:112-155 | on an accepted input with one `info` key, a fresh parser has captured exactly the slice of the input that is its value |
| BencodeCollect.NestedInfoLosesText | btor/bencode.cpp:143-146 | the input `d4:infod4:infoi1eee` is accepted, and what is captured is not the text of the outer value |
| BencodeCollect.CollectSums | btor/bencode.cpp:137-150 | one parse adds all integers under `length`, at any depth and in every occurrence, modulo 2^64 |
| BencodeCollect.CollectItemsSums | btor/bencode.cpp:157-160 | the same over any run of parses on one parser, since neither the sum nor the captured text is reset |
| BencodeExamples.TwoLengthsSummed | btor/bencode.cpp:137-150 | a length of 5 outside `info` and one of 7 inside add up to 12 |
| Bencode.BObject.PushBack | btor/bobject.cpp:68-75 | appends to a list and changes nothing on any other type |
| Bencode.BObject.AddKeyValue | btor/bobject.cpp:78-85 | inserts only a key that is not there yet, and fails on any other type |
| Bencode.BObject.GetInt | btor/bobject.cpp:119-126 | the integer, or failure on any other type |
| Bencode.BObject.GetByKey | btor/bobject.cpp:103-117 | the value of the key, or failure |
| Bencode.BMemoryManager.NewOfType | btor/bencode.cpp:278-284 | a fresh object of the type, registered once at the end |
| BencodeParser.BParser.ConsumeChar | btor/bencode.cpp:95-105 | the next character or failure at the end; the collector takes it while it is on |
| BencodeParser.BParser.ExtractString | btor/bencode.cpp:162-185 | reads a length-prefixed text exactly as the pure parser does, with the length wrapping at 32 bits, and fails where it fails |
| BencodeParser.BParser.ParseInteger | btor/bencode.cpp:220-256 | agrees with the pure parser on value, rest, collector, and failure |
| BencodeParser.BParser.ParseArbitrary | btor/bencode.cpp:59-93 | on every text terminates and agrees with the pure parser on failure, tree, rest and collector; the objects are fresh, distinct, registered once each, and hold the tree |
| BencodeParser.BParser.ParseList | btor/bencode.cpp:202-218 | the same for a list, item by item, on one object that grows in place |
| BencodeParser.BParser.ParseDictionary | btor/bencode.cpp:112-155 | the same for a dictionary, including `info`, `length` and repeated keys |
| BencodeParser.BParser.ParseBencodedString | btor/bencode.cpp:47-57 | the same for a whole input, with the capture state and the sum of earlier parses carried over |
| BencodeHeap.ChildOnHeap | btor/bobject.cpp:68-85 | a reference of a list or dictionary leads to the objects of the child in the tree, and to nothing else |
| BencodeHeap.FirstOccurrence | btor/bobject.cpp:78-85 | a key is in the map if and only if it occurs in the source, and leads to the value of its first occurrence |
| BencodeHeap.SinglePath | btor/bencode.cpp:202-218 | every object that the result leads to is one of the new ones, and by a single path |
| BencodeReach.FollowLeads | btor/bobject.cpp:68-85 | every path of the tree, with the first entry of each key, is a path of the heap to the object with that number |
| BencodeReach.ReachableExactly | btor/bobject.cpp:78-85 | the result leads to an object if and only if it lies under no entry whose key occurs before it in the same dictionary |
| BencodeReach.AllReachableExactly | btor/bencode.cpp:278-284 | the result leads to every registered object if and only if no dictionary repeats a key |
| BencodeReach.RepeatedKeyIsLost | btor/bencode.cpp:142-151 | on `d1:ai1e1:ai2ee` the second integer is registered and cannot be reached |
| Hex.FromIToHex | btor/httplib.h:1440-1448 | the loop prepends the digits of the number in base 16 without leading zeros |
| Hex.DigitInTable | btor/httplib.h:1441 | the digits are those of the table in the source |
| Hex.PadIsFixed | btor/butils.cpp:50-54 | zero padding to the width gives exactly that many digits of the number |
| InfoHash.GetSHA1 | btor/butils.cpp:41-56 | the hash in hex is the SHA-1 of the `info` text, eight digits for each word |
| InfoHash.UrlEncode | btor/butils.cpp:75-88 | a percent sign before every second character |
| InfoHash.HexWordsArePairs | btor/butils.cpp:49-56 | the hex words are two digits for each byte of the digest, most significant first |
| InfoHash.DecodePercentPairs | btor/butils.cpp:75-88 | percent-decoding what `urlEncode` makes of two hex digits a byte gives the bytes |
| InfoHash.InfoHashParameter | btor/bhttp.cpp:33-41 | from the torrent to the announce parameter: with one `info` key, decoding the parameter gives the 20 big-endian digest bytes of SHA-1 over the source bytes of its value |
| UrlCodec.FromHexToI | btor/httplib.h:1423-1438 | succeeds if and only if that many hex digits stand there, with their value |
| UrlCodec.DecodeAt | btor/httplib.h:1616-1642 | one pass of the decoding loop, with every fallback to the plain character |
| UrlCodec.DecodeUrlLoop | btor/httplib.h:1611-1646 | the loop with its skipping index decodes the text step by step |
| UrlCodec.EncodeQueryParam | btor/httplib.h:1559-1578 | each character of the value stands in the result in order: unreserved ones (letters, digits and `-_.!~*'()`) as they are, others as a percent sign and two digits out of 0-9A-F, and nothing else; what it returns decodes to its input, with plus meaning a space or not |
| UrlCodec.EncodeDecode | btor/httplib.h:1611-1646 | decoding undoes encoding for every byte string and both values of the flag |
| UrlDecoding.PiecesDecoded | btor/httplib.h:1611-1646 | a text of plain characters, percent signs with two digits, and percent signs with u and four digits, in either case, is decoded piece by piece |
| UrlDecoding.StrayPercent | btor/httplib.h:1617-1637 | a percent sign stays exactly as it is when neither two digits nor u and four digits follow |
| UrlDecoding.Utf8RoundTrip | btor/httplib.h:1450-1479 | `to_utf8` writes bytes that stand for the code point by section 3 of RFC 3629, and nothing for a surrogate or a number beyond the last code point |
| Base64.LetterInTable | btor/httplib.h:1485-1486 | the letters are those of the table of section 4 of RFC 4648 |
| Base64.Vectors | btor/httplib.h:1484-1510 | test vectors of section 10 of RFC 4648, with both kinds of padding |
| Base64.SextetsOf24Bits | btor/httplib.h:1494-1501 | the four letters are the digits to base 64 of the 24 bits |
| Base64.EncodeDecode | btor/httplib.h:1484-1510 | the decoder of section 4 of RFC 4648 returns the input |
| Base64.PutByte | btor/httplib.h:1494-1501 | one pass of the loop puts out the right letters although the accumulator has lost its high bits |
| Base64.Base64Encode | btor/httplib.h:1484-1510 | for inputs of any length the result is the RFC 4648 encoding and is decoded to the input |
| Numbers.StrtoulHex | btor/httplib.h:2830-2833 | what `from_i_to_hex` writes is read back by `strtoul` and `stoul` up to the first other character |
| Spelling.StrtoulReads | btor/httplib.h:2830 | `strtoul` reads every spelling of a number: white space, a sign, 0x, digits in either case with leading zeros; negated modulo 2^32, and ULONG_MAX on overflow |
| Spelling.StoulReads | btor/HTTPRequest.hpp:635 | so does `stoul`, which throws on overflow |
| Spelling.StoiReads | btor/HTTPRequest.hpp:553 | so does `stoi`, in base 10, exactly for numbers from -2^31 to 2^31 - 1 |
| Spelling.ScanNothing | btor/httplib.h:2832 | without a digit there is no number |
| LineReader.StreamLineReader.Append | btor/httplib.h:1757-1768 | the line grows by the character, in the fixed or in the growing buffer |
| LineReader.StreamLineReader.GetLine | btor/httplib.h:1730-1754 | on success `ptr` and `size` denote exactly the bytes up to and including the next newline or the end of the stream, on every call and for every size of the fixed buffer |
| ChunkedWriter.ChunkedSink.Write | btor/httplib.h:3046-3070 | one chunk is emitted, or nothing for an empty piece or after an error; data is available afterwards if and only if the piece was not empty |
| ChunkedWriter.ChunkedSink.Done | btor/httplib.h:3072-3100 | the last chunk is emitted unless an error came before |
| ChunkedWriter.Provide | btor/httplib.h:3105-3108 | the calls of the sink in one turn emit their chunks in order as far as the connection takes them, and the last of them decides whether data is available |
| ChunkedWriter.WriteContentChunked | btor/httplib.h:3104-3117 | for every provider and every shutdown: success exactly when the loop ends by itself and the connection takes everything, and what is emitted are the calls made until then |
| ChunkedWriter.EmittedInOrder | btor/httplib.h:3104-3113 | however a provider groups its pieces and its done into turns, the chunks are emitted in order and then the end, unless a turn ends with an empty piece |
| ChunkedWriter.ReadBackExactly | btor/httplib.h:2817-2855 | what any calls of the sink emit is read back as their pieces, to its end, if and only if the pieces are shorter than ULONG_MAX and nothing but empty pieces comes behind a done |
| ChunkedWriter.RoundTripExactly | btor/httplib.h:3046-3049 | for a provider that writes some pieces and is then done, in any grouping, this is so if and only if no turn ends with an empty piece and no piece is too long |
| ChunkedWriter.NoEnd | btor/httplib.h:3104 | without a done the reader fails |
| Chunked.HugeChunk | btor/httplib.h:2830-2833 | a piece of ULONG_MAX bytes or more makes the reader fail |
| Chunked.ReadContentWithLength | btor/httplib.h:2765-2785 | exactly the given number of bytes from a stream in any pieces, or failure with all there was |
| Chunked.ReadContentChunked | btor/httplib.h:2817-2855 | for any stream in any pieces: the result, the content and the rest of the reader as a function of the bytes |
| Chunked.RoundTrip | btor/httplib.h:2817-2855 | whatever follows, the reader returns the concatenation of what was written and stops where the writer stopped |
| ChunkSpelling.MessageRead | btor/httplib.h:2817-2855 | chunks whose sizes are spelled in any way, with extensions, are read as the concatenation of their payloads, up to the end of the message |
| ChunkSpelling.OtherLineEnds | btor/httplib.h:2843 | with any other line than an empty one behind a payload, the reader stops there and reports success |
| ChunkSpelling.TrailerRejected | btor/httplib.h:2848-2852 | a trailer behind the last chunk makes the reader fail |
| ChunkSpelling.BrokenExactly | btor/httplib.h:2839-2843 | a message that breaks off makes the reader fail, unless the connection ends between the CR and the LF behind a payload |
| ChunkSpelling.BrokenBehindCr | btor/httplib.h:2843 | the input `1`, CRLF, `x`, CR is accepted |
| HttpResponse.GoConsumes | btor/HTTPRequest.hpp:524-647 | every continuing pass of the inner loops uses up buffered bytes |
| HttpResponse.DrainFed | btor/HTTPRequest.hpp:515-658 | processing before or after more data arrives makes no difference, in every state of the loop |
| HttpResponse.CutIndependence | btor/HTTPRequest.hpp:515-660 | status, headers, body or failure are the same for every cutting when the response is chunked, has no length, or is broken |
| HttpResponse.LengthDelimitedFrom | btor/HTTPRequest.hpp:648-656 | with Content-Length, status and headers are the same for every cutting, and the body starts the stream's body and is long enough |
| HttpResponse.ContentLengthBody | btor/HTTPRequest.hpp:648-656 | on normal completion the first Content-Length bytes of the body are the bytes right after the empty line |
| HttpExact.CutIndependentExactly | btor/HTTPRequest.hpp:650-655 | over all deliveries of at most 4096 bytes the result is the same if and only if no bytes come behind a body delimited by Content-Length |
| HttpExact.Differ | btor/HTTPRequest.hpp:650-655 | otherwise two cuttings give different bodies |
| HttpReceiver.MessageDecoded | btor/HTTPRequest.hpp:601-647 | the chunk states decode the chunks of any pieces and the end of the message to the concatenation of the pieces |
| HttpReceiver.DecodersAgree | btor/HTTPRequest.hpp:601-647 | the response loop, in every cutting, and `read_content_chunked` give the same body for everything the writer can produce |
| HttpReceiver.PayloadDecoded | btor/HTTPRequest.hpp:610-627 | a payload is passed on whole, and the two bytes behind it are dropped whatever they are |
| ChunkSpelling.MessageMoves | btor/HTTPRequest.hpp:601-647 | the chunk states decode chunks whose sizes are spelled in any way to the concatenation of their payloads |
| ChunkSpelling.ResponseRead | btor/HTTPRequest.hpp:601-647 | so a chunked response of any peer is read, in every cutting, as its status, its fields and the concatenation of the payloads |
| HttpMessage.HeadRead | btor/HTTPRequest.hpp:524-596 | a header section put together from a status line and fields is read as its status code, its fields, and the framing they announce, or the call throws when one of them is malformed |
| HttpFields.LengthRead | btor/HTTPRequest.hpp:563-586 | a Content-Length in any spelling, with blanks around it, is the number that it says |
| HttpFields.CodingRead | btor/HTTPRequest.hpp:563-593 | Transfer-Encoding is accepted exactly when it is `chunked`, with blanks around it |
| HttpFields.OtherFieldRead | btor/HTTPRequest.hpp:581-593 | a field of any other name says nothing about the body; case matters |
| HttpMessage.ChunkedMessage | btor/HTTPRequest.hpp:601-647 | a chunked response put together from a head and pieces is read, in every cutting, as its status, its fields and the concatenation of the pieces |
| HttpMessage.PlainMessage | btor/HTTPRequest.hpp:648-656 | so is a response with a body delimited by its length or by the end of the stream |
| HttpMessage.MalformedMessage | btor/HTTPRequest.hpp:579-592 | with a malformed Content-Length or an unknown transfer coding the call throws, whatever follows and in every cutting |
| HttpMessage.CutIndependentExactly | btor/HTTPRequest.hpp:648-656 | for every head and body the result is the same for all deliveries if and only if no Content-Length in force is smaller than the body |
| HttpMessage.OneByteMore | btor/HTTPRequest.hpp:650-655 | an empty response with one byte behind it, whose result depends on the delivery |
| HttpReceiver.ResponseReader.ParseStatusLine | btor/HTTPRequest.hpp:544-557 | the status is the second of the parts that spaces separate, or the call throws |
| HttpReceiver.ResponseReader.ParseHeaderField | btor/HTTPRequest.hpp:559-593 | the field is stored; Content-Length and Transfer-Encoding take effect or throw |
| HttpReceiver.ResponseReader.ReadHeaders | btor/HTTPRequest.hpp:524-596 | the header loop does all moves that the data allows |
| HttpReceiver.ResponseReader.ReadChunks | btor/HTTPRequest.hpp:604-643 | the chunk loop ends, throws or asks for more data exactly as the moves do |
| HttpReceiver.ResponseReader.ProcessPiece | btor/HTTPRequest.hpp:515-657 | one pass of the outer loop is all moves on the new data and the test for completion |
| HttpReceiver.ResponseReader.Run | btor/HTTPRequest.hpp:513-660 | the response that `send` returns, or that it throws, for any deliveries after which the peer disconnects or `recv` throws |
| Multipart.Post | btor/httplib.h:6023-6053 | a body if and only if all characters of the boundary are allowed, in the format of section 5.1.1 of RFC 2046 |
| MultipartHeaders.HeaderRead | btor/httplib.h:3288-3299 | one header line, in any case and spacing, does to name, file name and type what it says, and any other line leaves them alone |
| MultipartHeaders.FieldsRead | btor/httplib.h:3272-3303 | header lines in any order, with a disposition, possibly a content type, and any number of other lines, give exactly that name, file name and type |
| MultipartHeaders.NameWithLineFeed | btor/httplib.h:3248-3251 | a name with a line feed in it is not matched |
| Multipart.FindStringLoop | btor/httplib.h:3404-3421 | the first place where the pattern stands, or may be about to start at the end of the buffer |
| Multipart.FindStringFirst | btor/httplib.h:3404-3421 | no place before it qualifies |
| Multipart.StepUses | btor/httplib.h:3256-3374 | on every input `off_` counts the bytes dropped from the buffer, and each turn of the loop makes progress |
| MultipartRuns.OffCounts | btor/httplib.h:3254-3377 | over a whole call of `parse`, `off_` and the buffer together account for every byte |
| MultipartParser.MultipartFormDataParser.Headers | btor/httplib.h:3272-3308 | the header loop does all header moves that the buffer allows |
| MultipartParser.MultipartFormDataParser.Body | btor/httplib.h:3309-3349 | both blocks of the body case, with what the callback receives |
| MultipartParser.MultipartFormDataParser.Boundary | btor/httplib.h:3350-3369 | a new entry, the end, or waiting |
| MultipartParser.MultipartFormDataParser.Parse | btor/httplib.h:3245-3377 | result, fields and callbacks of a call are a function of the fields before and of the data, for every input |
| MultipartParser.ReadContentCore | btor/httplib.h:4633-4669 | a body that arrives in pieces is accepted, with exactly the items that were posted, or that a body with any header lines says, when the contents are unambiguous |
| MultipartRoundTrip.LinesGiveItem | btor/httplib.h:3288-3299 | reading the header lines of an item gives its name, filename and content type |
| MultipartRoundTrip.BodyIsEntries | btor/httplib.h:6035-6047 | the body is the first boundary and then, for each item, headers, content and the next delimiter |
| MultipartRoundTrip.WithoutDashes | btor/httplib.h:3309-3344 | content without CRLF and two dashes is unambiguous for every boundary |
| MultipartCuts.StepKeeps | btor/httplib.h:3254-3374 | every move leaves the parser at a place of the body, waits only when something is missing there, and never gives up |
| MultipartCuts.DelimiterStep | btor/httplib.h:3326-3347 | in unambiguous content the second block takes the delimiter or only content |
| MultipartRuns.EveryCut | btor/httplib.h:3245-3377 | in every cutting of the body of a non-empty list the parser ends valid with exactly the items in order, their contents the concatenation of the callbacks |
| MultipartRuns.EveryCutOfEntries | btor/httplib.h:3245-3377 | the same for a body whose parts have such header lines |
| MultipartRuns.EveryCutOfParts | btor/httplib.h:3245-3377 | and for parts with any header lines from which the parser reads the items |
| MultipartExact.MisfitParts | btor/httplib.h:3309-3344 | an ambiguous content is unambiguous up to a CRLF-dash-dash that has a delimiter or the end of the content within the width of a delimiter |
| MultipartExact.ComesTo | btor/httplib.h:3254-3374 | in any cutting of the body up to there, the parser has passed on that much of the content, but for less than a delimiter's width that it holds |
| MultipartExact.TakesFirst | btor/httplib.h:3329-3337 | a delimiter in the buffer ends the item, whatever comes before it |
| MultipartExact.TakesWidth | btor/httplib.h:3338-3344 | CRLF-dash-dash with no delimiter in the buffer is passed on for the width of one |
| MultipartExact.PartsExactly | btor/httplib.h:3245-3377 | for parts with any header lines, every cutting into pieces gives the items if and only if all contents are unambiguous |
| MultipartExact.RoundTripExactly | btor/httplib.h:3245-3377 | every cutting into pieces gives the items if and only if all contents are unambiguous: no delimiter in them, and a delimiter's length of content behind each CRLF-dash-dash that the parser meets |
| MultipartExact.RoundTripAtServer | btor/httplib.h:4640-4647 | the same for pieces of at most 4096 bytes and every boundary of at most 70 characters |
| MultipartExact.WrongCut | btor/httplib.h:3338-3344 | otherwise a cutting into single bytes and one piece of at most twice a delimiter's length hands out something else |
| MultipartExact.DashesAreAmbiguous | btor/httplib.h:3338-3344 | CRLF and two dashes alone are such a content, for every boundary |
| MultipartRefused.WrongStart | btor/httplib.h:3258-3266 | a body that does not start with the first boundary is not accepted, and nothing is handed out, in any cutting |
| MultipartRefused.EpilogueRefused | btor/httplib.h:3370-3373 | a body that goes on behind the last boundary is refused in every cutting |
| MultipartRefused.BrokenOffRefused | btor/httplib.h:3350-3369 | a body that breaks off is never valid |
| ThreadPool.StepKeepsInv | btor/httplib.h:505-573 | every step of workers, enqueuing threads and shutdown keeps the invariant: jobs conserved and in order, mutex exclusive, queue watched |
| ThreadPool.FirstInFirstOut | btor/httplib.h:549-556 | in every state of every run the jobs have left the queue in the order they entered it, and the rest is queued in order |
| ThreadPool.AtMostOnce | btor/httplib.h:544-561 | no job is running or finished more than once altogether |
| ThreadPool.AllDone | btor/httplib.h:524-537 | when `shutdown` has returned, every enqueued job has been run exactly once |
| ThreadPool.NoLostWakeup | btor/httplib.h:549-550 | a queued job is never left with all workers asleep, but for the moment before the notification |
| ThreadPool.AtRest | btor/httplib.h:533-536 | when `shutdown` has returned no step is possible any more |
| ThreadPool.ShutdownTerminates | btor/httplib.h:532-536 | while `shutdown` joins, some step is always possible until all workers have exited |
| ThreadPool.JoiningBounded | btor/httplib.h:532-536 | and only a bounded number of steps is |
| ThreadPoolProgress.StuckOnlyWhenIdle | btor/httplib.h:544-561 | in every state of every run the pool can go on without new calls and without spurious wake-ups exactly when it is not idle, so always while a job is queued |
| ThreadPoolProgress.EveryJobIsDone | btor/httplib.h:512-516 | left alone, it makes a bounded number of steps, and when it stops every job is done exactly once, whether or not `shutdown` was called |
| ThreadPoolProgress.ComesToRest | btor/httplib.h:544-561 | every run can be continued to such an end |
| ThreadPoolProgress.QueueOf | btor/httplib.h:512-523 | any number of jobs can be queued before the first is taken, and `shutdown` can be called then |
| ClientSocket.StepKeepsInv | btor/httplib.h:5284-5370 | every step of `send`, nested `send`, `stop` and closing keeps the invariant on the two mutexes and the counter |
| ClientSocket.CounterNamesTheThread | btor/httplib.h:5329-5336 | the counter is the nesting depth of the one thread inside the request section, and the thread field names it |
| ClientSocket.NobodyElseCloses | btor/httplib.h:5226-5243 | no thread closes the socket while another thread's request is in flight, in `send`, `stop`, at the end of a response or in the destructor: the assertion of `close_socket` holds |
| ClientSocket.MarkedByOne | btor/httplib.h:5329-5333 | the thread that counts a request finds no request of another thread |
| ClientSocket.OneInSection | btor/httplib.h:5287-5288 | at most one thread is in a section guarded by the socket mutex |
| ClientSocket.FlagMeansStopped | btor/httplib.h:5291 | the flag is set if and only if `stop` came during a request since the last `send` cleared it |
| ClientSocket.EndLeavesClosedExactly | btor/httplib.h:5349-5363 | the end of a request leaves the socket closed exactly when it was closed, or was to be closed, or `stop` was called since the last `send` began |
| ClientSocket.StopLeavesClosed | btor/httplib.h:6240-6255 | a `stop` during a request, with no later nested `send`, leaves the socket closed when that request ends |
| ClientSocket.NestedSendForgetsStop | btor/httplib.h:5291 | a run in which a nested `send` forgets the `stop` and the socket stays open |
| ClientStop.OpenAfterStep | btor/httplib.h:5287-5363 | after every step the socket is open if and only if the step connected it, or it was open and the step did not close it |
| ClientStop.CountedWithSocket | btor/httplib.h:5295-5336 | a request is counted only with the socket open, and connecting never replaces an open socket |
| ClientStop.ClosedBy | btor/httplib.h:5294-5307 | a dead socket is closed before connecting again, the closing at the end of a response and the destructor leave it closed, and the steps that only lock, count or release leave it as it is |
| ClientStop.StopAtOnce | btor/httplib.h:6240-6260 | `stop` closes the socket at once if no thread has a request going on, and otherwise leaves it to that request |
| ClientStop.StopIsFinal | btor/httplib.h:6240-6260 | after a `stop` the socket is closed as soon as all calls have returned, unless another `send` has begun |
| ClientStop.SomeCallGoesOn | btor/httplib.h:5284-5370 | no deadlock: while a call has not returned, some call that has begun can go on |
| ClientStop.CallsEnd | btor/httplib.h:5284-5370 | and such steps are bounded |
| ClientStop.CallsReturn | btor/httplib.h:5284-5370 | so every run can be continued until all calls have returned, and then every thread can call `send` or `stop`, or end the client |
| ClientStop.ClosingItself | btor/httplib.h:5781-5797 | a run in which a thread closes the connection during its own request |
| ClientStop.ConnectingFails | btor/httplib.h:5310-5311 | a run in which connecting fails and `send` returns, with no request counted |
| Bitfield.IsBitInBitfieldSet | btor/butils.cpp:24-30 | the test of the bit is membership in the set that the bytes stand for, high bit first |
| Bitfield.SetBitInBitfield | btor/butils.cpp:7-22 | the bytes are updated in place; their set gains the index |
| Bitfield.HighBitFirst | btor/butils.cpp:7-30 | bit 0 is the one of value 0x80, bit 7 the one of value 0x01 |
| Bitfield.FirstAndLast | btor/butils.cpp:7-30 | the first number is the highest bit of the first byte, the last one the lowest bit of the last |
| Bitfield.SetBitsAreFound | btor/butils.cpp:7-30 | after any run of in-range sets, an index is found if and only if it was set before or is one of them |

## Left out

- Sockets, TLS, DNS, files, console output, `main` and the peer loop: calls into the system.
- gzip, brotli, OpenSSL, the proxy and `SSLClient` paths, redirects, exceptions escaping from callbacks.
- Server routing, ranges, cookies and the other parts of btor/httplib.h: they would only add easy members.
- getBitfieldSize and `info_hash_raw` in btor/butils.cpp: the first divides before it rounds up, the second copies the bytes of the vector object; neither has the property its name suggests.
- Multipart.MatchDisposition: models the regular expression only for names and filenames without quotation marks; on other lines the library's matcher may find more.
- MultipartHeaders.FieldsRead: names and file names hold no quotation marks; lines that begin with Content-Disposition but are not of the form above, such as attachments, are not among the other lines.
- MultipartParser.MultipartFormDataParser.Parse: the callbacks accept everything, so the early returns on a refusing callback are not modelled.
- MultipartParser.ReadContentCore: the boundary is given; finding it in the header of the request is not modelled.
- ChunkedWriter.WriteContentChunked: the provider is a finite list of turns and gives up after them; `is_writable` and compressors other than the one that does nothing are not modelled.
- Chunked.ReadContentWithLength: the receiver accepts everything and there is no progress callback.
- HttpReceiver.ResponseReader.Run: building and sending the request come before it; `body.reserve` is taken not to throw.
- BencodeParser.BParser.ParseArbitrary: on failure only the failure, the fresh objects and the registration are specified, not the captured text and the sum; at the end of the input the missing return is a failure.
- BencodeParser.BParser.ParseBencodedString: inputs are shorter than 2^32 bytes, the range of the cursor.
- Bitfield.SetBitInBitfield: indices in range only, as an index outside the vector is undefined in the source.
- Sha1.Transform: the 80 unrolled calls are grouped into loops of five calls, after which the argument order repeats.
- LineReader.StreamLineReader.GetLine: the fixed buffer has at least two bytes; the callers use 16 and 2048.
- ThreadPool.AllDone: nobody enqueues once the shutdown flag is set; the source would leave such a job in the queue.
- ThreadPoolProgress.EveryJobIsDone: jobs are taken to end, and spurious wake-ups to stop; while new jobs keep coming, progress of a single job under a fair scheduler is not stated.
- ClientSocket.NobodyElseCloses: the destructor runs when no thread is inside the client, as the language demands; what the peer does to an open socket is any value of `is_alive`, and `handle_request` any result.
