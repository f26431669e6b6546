# Verified models of PC Bio Unlock and the libraries it carries

PC Bio Unlock unlocks a computer with a phone: worker threads talk to several paired phones at once, packets
are framed, encrypted and time-stamped, and on Windows the credentials are packed for the logon process. It
carries three libraries whose source belongs to the repository: cpp-httplib, spdlog and pstreams. This project
models the stateful core of all four in Dafny and proves properties of the models. Check it with
`dafny verify dfyconfig.toml`.

| files | what they model |
|---|---|
| UnlockServer, UnlockRace, UnlockOutcome, UnlockCauses | the response state machine; the race of the workers with the main thread, step by step and with uninterrupted epilogues; what each returned state comes from |
| PacketFraming, PacketCrypt, KerbPack | length-prefixed frames; encrypted packets with a time window; the packed logon blob |
| MultipartHeader, MultipartParser, MultipartMachine, MultipartRoundTrip | the incremental multipart parser over its sliding buffer, a machine it refines, and its serialiser |
| MultipartFields, MultipartNames, MultipartOpening, MultipartHeaderLines, MultipartEpilogue | what header lines mean, which names survive, how the opening line must come, when the split of header lines matters, and what chunks after the end marker do |
| ChunkedCoding, ByteRanges, RangeHeader, QueryCoding, Base64, ClientSocket | the other codecs of cpp-httplib, and the client's socket ownership protocol |
| CircularQueue, BlockingQueue, QueueHistory | spdlog's ring buffer, backtracer and blocking queue, and what the queue's history says of it |
| PatternFormatter, PatternFlags | spdlog's pattern compiler and padding, and what each flag prints |
| Pstream | the stream buffer over the pipes of a child process |
| Text, Prelude | searching, trimming, splitting and decimal numbers; shared types |

Code that works in place is modelled by classes, arrays and loops, each proved against a function; the main
results are lemmas about these functions and about state machines. Characters stand for bytes in the text
protocols. Threads are modelled by interleaving atomic steps; a run is any sequence of steps.

## What was found

Properties that the code meets only under a condition, or not at all; each is stated exactly.

- `GetResult` joins the workers while it still holds the mutex that the last finisher needs for its
  notification (UnlockHandler.cpp lines 74, 81-92). Once the count is complete it can return if and only if
  every worker has already finished (ReturnsIffAllDone), and a single server is enough to block it (JoinCanBlock).
- A success wins in every run exactly when there is only one server (SuccessWinsIffAlone). With two or more,
  a stored success can be overwritten by another worker's failure, because the final load and store are two
  steps (SuccessCanBeLost); with uninterrupted epilogues the last success wins (UninterruptedResult). Every
  returned result is known and every returned success authentic in all interleavings.
- A content provider's call that leaves off at an empty write ends a chunked body: the writer reports success
  without having sent the last chunk (EmptyWriteCutsBody), and a shutdown does the same. The body is complete
  exactly if some call says `done` and each before it leaves off at a non-empty write, or does not use the
  sink (TerminatedIff). A chunk whose size does not fit an `unsigned long` is refused (LargeChunkIsRefused).
- A multipart chunk without the opening line is dropped, even if it ends with the first half of that line: the
  round trip needs the line in the first non-empty chunk (RoundTripIffOpeningIsWhole, ChunkIsDropped).
- Formatters of dates and times announce a constant size to the padder, and some print less: 8 characters for
  the 10 of `%D`. Truncation then cuts off what stood before: `[%1!D]` prints `]` (DateCutsBracket), and `%1!D`
  on an empty buffer fails. Earlier output stays under every pattern exactly if no flag announces more than it
  prints (AllPatternsKeepIff); `%D` and `%x` never announce what they print, and `%Y`, `%E` and `%c` only for
  some times (TruthfulTimesIff); for one pattern and one field see KeepsEarlierIff and EarlierOutputStaysIff.
- The multipart end marker does not end a body. What stands behind it in its chunk is dropped, but chunks that
  come later and begin with a line end are read as further entries (LaterEntryIsDelivered); they add nothing
  exactly if no header is completed in them (LaterChunksAddNothingIff).
- The multipart parser measures a header line only at the beginning of an entry or of a chunk. Acceptable
  lines are treated alike under every split exactly if the first is longer than 8192 bytes, and so always
  refused, or all are shorter (LinesAreSplitIndependentIff, SplitCanMatter).
- Names of multipart items are written unescaped and read by splitting at `;` and `=`: they are read back
  exactly if they have neither of these and no line end (NamesAreReadBackIff, SemicolonCutsName).
- Query keys are written unescaped: a pair is read back exactly if its key is non-empty and has no `&`,
  `=`, leading blank, `+` or complete percent escape (PairIsReadBackIff, PlusIsLost). A repeated pair is kept
  once (QueryRoundTrip).
- `stop` during a request is forgotten when that request follows a redirect: the nested `send_` clears the
  flag and carries on over a new connection, which stays open (NestedSendForgetsStop); without a nested call
  the socket is closed (StopIsHonoured).
- The guard of `EncryptAES` does not count the tag: payloads of 969 to 984 bytes are accepted but their packet
  does not lie within the 1024-byte buffer (EncryptAESPacket).
- The length of a frame is cut to 16 bits: a payload comes back exactly if it is shorter than 65536 bytes
  (FrameRoundTrip).
- `make_range_header` prints ranges that no header can express (an empty list, (-1, -1), positions out of
  order); parsing refuses exactly these (ParseInvertsMake).
- A comment in httplib.h speaks of a request with at most two overlapping ranges; what is counted is ranges
  that begin within the extent of an earlier one (ByteRanges.Acceptable).

## Model

| member | source | states |
|---|---|---|
| MultipartRoundTrip.MultipartRoundTrip | common-cpp/deps/headers/httplib.h:4553-4688 | parsing a serialised body, in any chunks of which the first holds the opening delimiter line and with callbacks that accept, delivers exactly the serialised items in order and leaves the parser valid |
| MultipartOpening.RoundTripIffOpeningIsWhole | common-cpp/deps/headers/httplib.h:4560-4567 | if an opening line stands only where an item begins, the round trip succeeds exactly if the first non-empty chunk holds the whole opening line |
| MultipartOpening.ChunkIsDropped | common-cpp/deps/headers/httplib.h:4560-4563 | before the opening line was found, a chunk that does not hold it is dropped, even a beginning of the line at its end |
| MultipartOpening.ReadsFromOpening | common-cpp/deps/headers/httplib.h:4560-4567 | for every body, the parser does as if the chunks before the first that holds the opening line had not come |
| MultipartMachine.SplitDoesNotMatter | common-cpp/deps/headers/httplib.h:4553-4688 | if no end marker and no too long header line is reached, then however the bytes are split the parser ends exactly where a one-step machine rests on the undivided bytes (same stage, buffered bytes, file information and items), or fails, when a header line is refused, with the same items delivered |
| MultipartMachine.LoopAgrees | common-cpp/deps/headers/httplib.h:4553-4688 | with callbacks that accept, one call of `parse` takes the parser to where the machine rests, failures included, unless the machine meets a too long header line |
| MultipartMachine.TurnAgrees | common-cpp/deps/headers/httplib.h:4558-4684 | with callbacks that accept, one turn of the five-stage switch is a number of machine steps, unless the machine meets a too long header line |
| MultipartMachine.HeaderLinesAgree | common-cpp/deps/headers/httplib.h:4573-4643 | with callbacks that accept, the header-line loop of stage 2 is a number of machine steps, unless the machine meets a too long header line |
| MultipartMachine.RestBetweenChunks | common-cpp/deps/headers/httplib.h:4553-4688 | up to the end marker, no byte that arrives later changes what was decided before: the machine rests in the same place whether or not it rests between two chunks |
| MultipartMachine.UpToEndMarker | common-cpp/deps/headers/httplib.h:4553-4688 | if the machine reaches an end marker, the parser does so within one of the chunks: it is then valid, has delivered exactly the machine's items, and reads the later chunks from there |
| MultipartMachine.StepIgnoresLaterBytes | common-cpp/deps/headers/httplib.h:4553-4688 | a step that is possible stays possible, with the same effect, when more bytes are behind it |
| MultipartMachine.BodyUpToDelimiter | common-cpp/deps/headers/httplib.h:4644-4666 | when the buffered body holds a delimiter, exactly the bytes before its first occurrence are delivered and the delimiter is consumed |
| MultipartMachine.BodyHoldsBackTail | common-cpp/deps/headers/httplib.h:4644-4666 | without a delimiter, all bytes are delivered but as many as could still begin one |
| MultipartRoundTrip.BodyWithDelimiter | common-cpp/deps/headers/httplib.h:4644-4666 | for every byte stream, wherever in a chunk the body begins and whatever the split, if the body ends with its first delimiter, the content callbacks are given exactly the bytes before it |
| MultipartRoundTrip.BodyWithoutDelimiter | common-cpp/deps/headers/httplib.h:4644-4666 | while no delimiter has arrived, wherever the body begins and whatever the split, the content callbacks have been given all bytes but a tail as long as a delimiter, which stays buffered |
| MultipartRoundTrip.ContentEndsAtDelimiter | common-cpp/deps/headers/httplib.h:4644-4666 | whatever follows the first delimiter, the entry keeps exactly the bytes before it |
| MultipartRoundTrip.EarlierItemsStay | common-cpp/deps/headers/httplib.h:4553-4688 | entries that are complete are never altered by the bytes after them |
| MultipartRoundTrip.EntriesAreRead | common-cpp/deps/headers/httplib.h:4568-4688 | from the start of an entry, the machine reads any non-empty list of serialised items back and finishes |
| MultipartRoundTrip.ReadsEntryHeader | common-cpp/deps/headers/httplib.h:4573-4643 | the header lines the serialiser prints give back name, file name and content type, and one header callback |
| MultipartRoundTrip.DispositionParamsRead | common-cpp/deps/headers/httplib.h:4466-4488 | the quoted parameters printed for an item are parsed back to the name and the file name |
| MultipartNames.NamesAreReadBackIff | common-cpp/deps/headers/httplib.h:4832-4848 | the name and the file name printed into a Content-Disposition line are read back exactly if neither has a CR, LF, `;` or `=`; quotes do no harm |
| MultipartNames.SemicolonCutsName | common-cpp/deps/headers/httplib.h:4466-4488 | the name `a;b` is read back as `"a` |
| MultipartFields.ParsesIff | common-cpp/deps/headers/httplib.h:3905-3941 | a header line is accepted exactly if it has a non-empty key, a colon, and something other than blanks behind it |
| MultipartFields.ContentTypeLine | common-cpp/deps/headers/httplib.h:4598-4600 | the content type is what follows its heading, in any case, without the blanks around it; a blank one is refused |
| MultipartFields.DispositionLine | common-cpp/deps/headers/httplib.h:4602-4609 | a form-data disposition is recognised in any case and with any white space, and sets what its parameters say, unless they hold a line end |
| MultipartFields.OtherLine | common-cpp/deps/headers/httplib.h:4598-4607 | any other accepted line changes nothing |
| MultipartFields.OtherDisposition | common-cpp/deps/headers/httplib.h:4602-4607 | nor does a disposition that is not form data |
| MultipartFields.DispositionIs | common-cpp/deps/headers/httplib.h:4611-4636 | refused exactly if there is no name or an extended file name is malformed; a decoded extended file name has precedence over a plain one, and without either the file name stays |
| MultipartFields.ExtendedIff | common-cpp/deps/headers/httplib.h:4625-4630 | an extended file name is `UTF-8''` in any case, before at least one character and no line end |
| MultipartRoundTrip.FindDelimiterAfter | common-cpp/deps/headers/httplib.h:4736-4757 | in content, delimiter and anything, the first delimiter found is the one that was printed |
| MultipartRoundTrip.EpilogueIsHarmless | common-cpp/deps/headers/httplib.h:4667-4684 | the final line end, however split, leaves the parser valid and the callbacks untouched, although it can move the parser from stage 4 to stage 1 |
| MultipartRoundTrip.ParserFinishes | common-cpp/deps/headers/httplib.h:4553-4688 | if the machine finishes on a body followed by a line end, so does the parser, in any chunks |
| MultipartEpilogue.LaterChunksAddNothingIff | common-cpp/deps/headers/httplib.h:4667-4682 | after the end marker, later chunks make no callback exactly if they bring no complete header of a further entry behind a line end that comes first |
| MultipartEpilogue.LaterChunksHarmlessIff | common-cpp/deps/headers/httplib.h:4667-4682 | and they also leave the parser valid exactly if they bring no further header, or only the beginning of one |
| MultipartEpilogue.AfterMarker | common-cpp/deps/headers/httplib.h:4667-4682 | what becomes of the parser with any chunks after the end marker, by the bytes they bring and, for a repeated marker, by the chunk it comes in |
| MultipartEpilogue.LaterEntryIsDelivered | common-cpp/deps/headers/httplib.h:4667-4672 | an entry that comes in chunks after the end marker, behind a line end, is delivered, in any split |
| MultipartEpilogue.SameChunkIsDropped | common-cpp/deps/headers/httplib.h:4674-4677 | all bytes behind the end marker in its own chunk are dropped |
| MultipartHeaderLines.LinesAreSplitIndependentIff | common-cpp/deps/headers/httplib.h:4573-4643 | header lines that say nothing wrong are all accepted or all refused, whatever the split, exactly if the first is longer than 8192 bytes or all are shorter |
| MultipartHeaderLines.LongFirstLineIsRefused | common-cpp/deps/headers/httplib.h:4574-4575 | a first header line of more than 8192 bytes is refused under every split, with no callback made |
| MultipartHeaderLines.LongLineDepends | common-cpp/deps/headers/httplib.h:4574-4576 | for any other line of 8192 bytes or more, one chunk is accepted, and a split before the line and within its line end is refused |
| MultipartHeaderLines.SplitCanMatter | common-cpp/deps/headers/httplib.h:4574-4576 | such a split of two lines, of 3 and of 8192 bytes |
| MultipartHeaderLines.HeaderInChunks | common-cpp/deps/headers/httplib.h:4573-4643 | for any answers of the callbacks, whether a header is completed, cut short or refused depends only on its bytes, if no line is long |
| MultipartRoundTrip.SerializedIsEntries | common-cpp/deps/headers/httplib.h:4863-4875 | the serialised body is the opening line followed by entries that each end with the delimiter the parser looks for |
| MultipartRoundTrip.SerializeItemBegin | common-cpp/deps/headers/httplib.h:4832-4848 | the loop-free printing of one item header yields its specification |
| MultipartRoundTrip.Serialize | common-cpp/deps/headers/httplib.h:4862-4875 | the serialising loop yields the serialised form of the list |
| MultipartRoundTrip.ItemIsWritten | common-cpp/deps/headers/httplib.h:4832-4860 | the bytes sent for one item, spelled out |
| MultipartRoundTrip.IsBoundaryCharsValid | common-cpp/deps/headers/httplib.h:4820-4830 | accepts exactly the boundaries of letters, digits, `-` and `_`, in which no carriage return occurs |
| MultipartParser.MultipartFormDataParser.ParseChunk | common-cpp/deps/headers/httplib.h:4553-4688 | the parser over the sliding buffer has the result, the state and the callback log of the parser over plain strings |
| MultipartParser.MultipartFormDataParser.Advance | common-cpp/deps/headers/httplib.h:4558-4684 | one turn of the switch on the buffer is one turn on the string |
| MultipartParser.MultipartFormDataParser.ReadHeaderLines | common-cpp/deps/headers/httplib.h:4573-4643 | stage 2 on the buffer: header lines up to the empty one, and the header callback |
| MultipartParser.MultipartFormDataParser.ReadBody | common-cpp/deps/headers/httplib.h:4644-4666 | stage 3 on the buffer: what is delivered, erased and kept |
| MultipartParser.MultipartFormDataParser.BufFind | common-cpp/deps/headers/httplib.h:4736-4757 | the nested search loops find the first occurrence in the buffered bytes, or their number |
| MultipartParser.MultipartFormDataParser.BufAppend | common-cpp/deps/headers/httplib.h:4759-4775 | sliding to the front, growing and copying append to the buffered bytes |
| MultipartParser.MultipartFormDataParser.BufErase | common-cpp/deps/headers/httplib.h:4777-4777 | drops the first bytes of the buffered ones |
| MultipartParser.TakeTurn | common-cpp/deps/headers/httplib.h:4558-4684 | every turn that goes on shrinks the buffered bytes plus a rank of the stage, so the parse loop terminates |
| QueryCoding.DecodeInvertsEncode | common-cpp/deps/headers/httplib.h:2553-2641 | percent-decoding undoes percent-encoding for every byte string, with `+` read as a blank or not |
| QueryCoding.QueryRoundTrip | common-cpp/deps/headers/httplib.h:4416-4449 | for all keys that survive, parsing a written query gives back the written parameters in order, repeated pairs kept once |
| QueryCoding.DecodeUrlLoop | common-cpp/deps/headers/httplib.h:2606-2641 | the index loop decodes like the head-by-head specification, malformed escapes and `%u` codes included |
| QueryCoding.EncodeQueryLoop | common-cpp/deps/headers/httplib.h:2553-2572 | the printing loop yields the encoding |
| QueryCoding.EncodedIsUnreserved | common-cpp/deps/headers/httplib.h:2553-2572 | encoded text holds no separator of a query |
| QueryCoding.EncodedByteIs | common-cpp/deps/headers/httplib.h:2553-2573 | the bytes that stand for themselves are letters, digits and ``-_.!~*'()``; any other becomes two upper-case digits |
| QueryCoding.Utf8RoundTrip | common-cpp/deps/headers/httplib.h:2435-2468 | the bytes of a `%uXXXX` code are its UTF-8 form, the shortest one, and none for a surrogate |
| QueryCoding.PairParses | common-cpp/deps/headers/httplib.h:4428-4449 | one written pair whose key survives is one piece and is parsed back |
| QueryCoding.PairIsReadBackIff | common-cpp/deps/headers/httplib.h:4416-4449 | a single written pair is read back exactly if its key is non-empty, and has no `&`, `=`, leading blank, `+` or complete percent escape |
| QueryCoding.DecodesToItselfIff | common-cpp/deps/headers/httplib.h:2606-2641 | decoding leaves a text as it is exactly if it has no `+`, no `%` before two hex digits, and no `%u` before four |
| QueryCoding.PlusIsLost | common-cpp/deps/headers/httplib.h:4416-4449 | the key `a+b` is read back as `a b` |
| QueryCoding.UnreservedSurvives | common-cpp/deps/headers/httplib.h:4416-4426 | keys of unreserved characters are among them |
| ChunkedCoding.ChunkedRoundTrip | common-cpp/deps/headers/httplib.h:4030-4082 | reading what the writer sent, whatever follows, gives back the payload and stops right before what follows exactly if the provider told the sink that it was done and sent nothing after that |
| ChunkedCoding.TransferChunked | common-cpp/deps/headers/httplib.h:4275-4378 | the same through two streams with any short writes and reads; without `done`, and with nothing following, the reader fails although the writer succeeded |
| ChunkedCoding.ReadContentChunked | common-cpp/deps/headers/httplib.h:4030-4082 | with any short reads, the reader succeeds only with the payload that the bytes of the stream specify and stops right behind it; a receiver that refuses has been given a beginning of it |
| ChunkedCoding.ReadAllChunks | common-cpp/deps/headers/httplib.h:4037-4063 | the chunk loop, from a size line to the line of the last chunk |
| ChunkedCoding.ReadContentWithLength | common-cpp/deps/headers/httplib.h:3981-4001 | exactly the announced number of bytes, in whatever portions |
| ChunkedCoding.StreamLineReader.Getline | common-cpp/deps/headers/httplib.h:2758-2782 | a line is read to its line feed whatever the size of the fixed buffer |
| ChunkedCoding.StreamLineReader.Append | common-cpp/deps/headers/httplib.h:2784-2795 | appending keeps the line when the fixed buffer spills into the growing one |
| ChunkedCoding.HexTextValue | common-cpp/deps/headers/httplib.h:2425-2433 | parsing the printed size gives the size back |
| ChunkedCoding.HexTextIsLower | common-cpp/deps/headers/httplib.h:2425-2433 | sizes are printed in lower case and without leading zeros |
| ChunkedCoding.StrtoulReads | common-cpp/deps/headers/httplib.h:4041-4044 | `strtoul` reads a hexadecimal text up to the first other character, and yields the largest value if it does not fit |
| ChunkedCoding.StrtoulIs | common-cpp/deps/headers/httplib.h:4041-4044 | the size read from any line: white space, a sign, `0x` or nothing, digits; cut to the largest value, negated by a minus sign, and none without a digit |
| ChunkedCoding.PartsExist | common-cpp/deps/headers/httplib.h:4041-4044 | every line has these parts |
| ChunkedCoding.ZeroEndsLine | common-cpp/deps/headers/httplib.h:4041-4043 | nothing behind a zero byte of a line is seen |
| ChunkedCoding.LargeChunkIsRefused | common-cpp/deps/headers/httplib.h:4043-4046 | a chunk whose size does not fit an `unsigned long` (of 32 or 64 bits) is refused by the reader |
| ChunkedCoding.FromIToHex | common-cpp/deps/headers/httplib.h:2425-2433 | the printing loop yields the hexadecimal text |
| ChunkedCoding.WriteContentChunked | common-cpp/deps/headers/httplib.h:4275-4378 | on a stream that does not fail, success exactly if no call of the provider cancels; what is sent are the chunks of the calls made, up to the first that leaves off at an empty write or at `done`, or to the shutdown |
| ChunkedCoding.TerminatedIff | common-cpp/deps/headers/httplib.h:4363-4377 | what a successful writer has sent is a complete body exactly if some call says `done` and every call before it leaves off at a non-empty write or does not use the sink |
| ChunkedCoding.EmptyWriteCutsBody | common-cpp/deps/headers/httplib.h:4285-4287 | an empty write between two pieces of data: success is reported, but only the first piece is sent, without a last chunk |
| ChunkedCoding.OpsAreRead | common-cpp/deps/headers/httplib.h:4283-4346 | any uses of the sink are read as their payload up to `done`, or run on into what follows |
| ChunkedCoding.WriteData | common-cpp/deps/headers/httplib.h:4184-4192 | partial writes add up to the whole, or the stream has failed |
| ByteRanges.RangeError | common-cpp/deps/headers/httplib.h:4877-4930 | on a 2xx status, accepts exactly the lists for which there are positions asked for that lie inside the content, with strictly increasing first positions and at most two overlaps, and then replaces the ranges by them; an error means that there are none |
| ByteRanges.NormaliseAndCheck | common-cpp/deps/headers/httplib.h:4893-4926 | the loop: fills in each range in place and stops exactly if the filled-in list is not acceptable, against the running maxima the code keeps |
| ByteRanges.NormalisedAnswers | common-cpp/deps/headers/httplib.h:4893-4913 | filling in gives the only possible answer to a list: a suffix (-1, n) becomes the n last positions, an open end reaches the last one, given positions stay; if the filled-in list is unacceptable, there is no answer |
| ByteRanges.NormalisedSelects | common-cpp/deps/headers/httplib.h:4893-4913 | one range: filled in, it lies inside the content exactly if a suffix has 1 to len bytes, an open end begins inside, and given positions are in order and inside; (-1, -1) is always refused |
| ByteRanges.SelectsOne | common-cpp/deps/headers/httplib.h:4893-4913 | a range asks for at most one pair of positions |
| ByteRanges.CountLimit | common-cpp/deps/headers/httplib.h:4891-4891 | up to 1024 ranges can be acceptable, and no more |
| ByteRanges.CheckRange | common-cpp/deps/headers/httplib.h:4910-4925 | one range against the remembered maxima decides whether the list so far stays acceptable |
| ByteRanges.OverlapsIff | common-cpp/deps/headers/httplib.h:4919-4925 | the comparison with the running maximum means overlap with some earlier range |
| ByteRanges.PrefixDecides | common-cpp/deps/headers/httplib.h:4893-4926 | an unacceptable beginning makes the list unacceptable, so stopping early is right |
| ByteRanges.GetMultipartRangesDataLength | common-cpp/deps/headers/httplib.h:5009-5025 | the computed length is the number of bytes of the body that is built |
| ByteRanges.MakeMultipartRangesData | common-cpp/deps/headers/httplib.h:4957-5007 | the token loop builds the parts in order with the closing boundary |
| RangeHeader.ParseInvertsMake | common-cpp/deps/headers/httplib.h:4493-4539 | parsing a made header gives the ranges back exactly if the list is non-empty and each range is valid, and is refused otherwise |
| RangeHeader.RangeParses | common-cpp/deps/headers/httplib.h:4504-4530 | one printed range is read back if valid, and refused if not |
| RangeHeader.RangeIsReadIff | common-cpp/deps/headers/httplib.h:4491-4545 | a text is read as a range exactly if it is two positions around a dash that fit, are not both absent, and are in order |
| RangeHeader.MakeRangeHeader | common-cpp/deps/headers/httplib.h:5393-5405 | the printing loop yields the header text |
| RangeHeader.ParseRangeHeader | common-cpp/deps/headers/httplib.h:4493-4539 | the parsing loop over the pieces yields the parsed list or its failure |
| Base64.EncodeLoop | common-cpp/deps/headers/httplib.h:2469-2495 | the loop over the wrapping 32-bit accumulator prints the encoding of section 4 of RFC 4648 |
| Base64.WrapKeepsLowBits | common-cpp/deps/headers/httplib.h:2480-2481 | shifting and wrapping keeps the pending low bits |
| Base64.DecodeInvertsEncode | common-cpp/deps/headers/httplib.h:2469-2495 | a standard decoder recovers every input |
| Base64.OnlyEncodingsDecode | common-cpp/deps/headers/httplib.h:2469-2495 | the strict decoder accepts nothing but encodings |
| Base64.Encode | common-cpp/deps/headers/httplib.h:2490-2492 | the padded length is four times the number of groups, 4*ceil(n/3) |
| ClientSocket.AssertionsNeverFail | common-cpp/deps/headers/httplib.h:7018-7035 | in every run of nested `send_` calls and `stop` calls, the counter is the number of active calls, they belong to the owning thread, and no assertion fails |
| ClientSocket.StopSparesSocketInUse | common-cpp/deps/headers/httplib.h:8296-8317 | `stop` closes an open socket if and only if no request is in flight, and otherwise shuts it down |
| ClientSocket.FlagIsStopPending | common-cpp/deps/headers/httplib.h:7089-7089 | the should-be-closed flag means: a `stop` came during a request and no `send_` was entered since |
| ClientSocket.EndClosesIffStopPending | common-cpp/deps/headers/httplib.h:7144-7159 | a request that ends closes the socket, if it is still open, exactly for a pending `stop` or its own need |
| ClientSocket.IsOpenIff | common-cpp/deps/headers/httplib.h:7083-7221 | in every run, the socket is open exactly if an entering call left a connection and since then the response did not say to close, no call ended that had to close or had a stop pending, no entering failed, and no `stop` came with nothing in flight |
| ClientSocket.ClosedAsTold | common-cpp/deps/headers/httplib.h:7208-7221 | once the response said to close, the socket stays closed until a call enters that connects |
| ClientSocket.IsShutIff | common-cpp/deps/headers/httplib.h:8296-8317 | in every run, the socket is shut down exactly if a `stop` came while its connection was in use, and that was neither closed nor replaced since |
| ClientSocket.AfterSend | common-cpp/deps/headers/httplib.h:7083-7088 | once `send_` was called, its thread enters before anything else is done but a `stop` |
| ClientSocket.AfterEnter | common-cpp/deps/headers/httplib.h:7088-7142 | a call in flight may be told to close, may end, or may be called again by its own thread, and only `stop` can come between |
| ClientSocket.AfterEnd | common-cpp/deps/headers/httplib.h:7144-7170 | when a call ends, its thread goes on with the call around it; after the outermost one, anyone may begin |
| ClientSocket.StopIsHonoured | common-cpp/deps/headers/httplib.h:7083-7170 | a `stop` during a request that makes no nested call closes the socket when that request ends |
| ClientSocket.NestedSendForgetsStop | common-cpp/deps/headers/httplib.h:7089-7108 | a run in which a nested `send_` after a `stop` clears the request to close and replaces the socket that was shut down, so that a connection is left open when all requests have ended |
| UnlockRace.SuccessIsAuthentic | common-cpp/src/handler/UnlockHandler.cpp:28-151 | in every interleaving, a returned SUCCESS is one worker's own result: its server received a decrypted response with its own token and this password, and its device is a stored one of the user |
| UnlockRace.NoLostWakeup | common-cpp/src/handler/UnlockHandler.cpp:66-84 | in every interleaving, main never sleeps un-notified once all workers are done |
| UnlockRace.RunKeeps | common-cpp/src/handler/UnlockHandler.cpp:64-151 | the scheduling and the data invariant hold in every reachable state |
| UnlockRace.StepKeepsSync | common-cpp/src/handler/UnlockHandler.cpp:66-92 | every step keeps the mutex, the count and the wake-up invariant |
| UnlockRace.StepKeepsData | common-cpp/src/handler/UnlockHandler.cpp:98-151 | every step keeps all results in sight genuine |
| UnlockOutcome.ReturnedIsKnown | common-cpp/src/handler/UnlockHandler.cpp:28-96 | in every interleaving, a result that is returned is not UNKNOWN |
| UnlockCauses.ReturnedHasCause | common-cpp/src/handler/UnlockHandler.cpp:64-151 | in every interleaving, the returned state is one worker's and has its cause in the actions: START_ERROR a failed start; TIMEOUT a wait that timed out as its last choice; CANCELED a cancellation, keys, another's stored success, or its connection or phone; any other state a disconnection or a response of that server |
| UnlockCauses.StoppedByChoice | common-cpp/src/handler/UnlockHandler.cpp:98-151 | in every interleaving, a worker that has stopped with a state has done so at one of its own choices, which decides the state by its place in turn: the start, a test, a poll or a wait |
| UnlockCauses.LastChoiceDecides | common-cpp/src/handler/UnlockHandler.cpp:103-137 | while a worker leaves, its state is the one its last choice decides, and it is TIMEOUT exactly if that choice is a wait whose time is up |
| UnlockCauses.TimeoutIff | common-cpp/src/handler/UnlockHandler.cpp:129-132 | a choice decides for TIMEOUT exactly if it is a wait whose time is up, and for START_ERROR exactly at the start |
| UnlockCauses.StartErrorIff | common-cpp/src/handler/UnlockHandler.cpp:98-106 | a worker stops with START_ERROR exactly if its first choice is a failed start |
| UnlockCauses.OneCause | common-cpp/src/handler/UnlockHandler.cpp:98-151 | a worker stops once and for one cause |
| UnlockCauses.PollsInTurn | common-cpp/src/handler/UnlockHandler.cpp:108-137 | a worker that has started tests, polls and waits in turn until it stops |
| UnlockCauses.OneServerReturnsItsState | common-cpp/src/handler/UnlockHandler.cpp:28-96 | with one server, the returned state is exactly the one its worker has stopped with |
| UnlockCauses.DisconnectStates | common-cpp/src/connection/clients/TCPUnlockClient.cpp:117-156 | a connection that ends without a response brings one of three states, and can bring each |
| UnlockCauses.MainSleeps | common-cpp/src/handler/UnlockHandler.cpp:74-82 | while no worker is done, main goes to sleep, and looks again after a spurious wake-up |
| UnlockOutcome.ReturnsIffAllDone | common-cpp/src/handler/UnlockHandler.cpp:80-92 | once main has seen the count complete, the call can still return if and only if every worker has finished |
| UnlockOutcome.JoinCanBlock | common-cpp/src/handler/UnlockHandler.cpp:80-92 | a run with one server after which the call never returns: main joins while it holds the mutex the worker asks for |
| UnlockOutcome.UninterruptedResult | common-cpp/src/handler/UnlockHandler.cpp:64-77 | with each epilogue as one step, for any number of servers and any order: the result is the last success to finish, or, without one, that of the last worker to finish; never UNKNOWN |
| UnlockOutcome.SharedResult.Finish | common-cpp/src/handler/UnlockHandler.cpp:68-76 | the epilogue on the mutex-protected cell: it then holds the last success so far or, when all have finished without one, the last result, and the last worker notifies |
| UnlockOutcome.EpilogueEffect | common-cpp/src/handler/UnlockHandler.cpp:68-76 | the whole epilogue: count, store on success, decide when last, notify |
| UnlockOutcome.SuccessCanBeLost | common-cpp/src/handler/UnlockHandler.cpp:68-76 | for any number of servers from two, a run in which the first worker's genuine success is overwritten and an error is returned |
| UnlockOutcome.SuccessWinsIffAlone | common-cpp/src/handler/UnlockHandler.cpp:64-96 | in every interleaving a worker's success makes the returned result a success, exactly if there is only one server |
| UnlockOutcome.OneServerKeepsSuccess | common-cpp/src/handler/UnlockHandler.cpp:64-96 | with one server, no run loses its success |
| UnlockServer.BaseUnlockServer.OnResponseReceived | common-cpp/src/connection/BaseUnlockServer.cpp:63-123 | the state after a response, and SUCCESS from it exactly if it carries the server's own token |
| UnlockServer.ResponseStates | common-cpp/src/connection/BaseUnlockServer.cpp:63-123 | which response leads to which state, each in both directions: the four plain words when nothing decrypts, a stale packet, a wrong token, and the rest |
| UnlockServer.GetDevicesForUser | common-cpp/src/storage/PairedDevice.cpp:3-10 | the loop returns the user's devices in storage order |
| CircularQueue.PushView | common-cpp/deps/spdlog/include/spdlog/details/circular_q.h:46-58 | writing at the tail appends to the view, and reaching the head drops its oldest item |
| CircularQueue.CircularQ.PushBack | common-cpp/deps/spdlog/include/spdlog/details/circular_q.h:46-58 | refines appending to a bounded sequence that drops its oldest item, and counts overruns |
| CircularQueue.CircularQ.PopFront | common-cpp/deps/spdlog/include/spdlog/details/circular_q.h:83-83 | removes the oldest item |
| CircularQueue.CircularQ.Size | common-cpp/deps/spdlog/include/spdlog/details/circular_q.h:66-73 | the number of items held |
| CircularQueue.CircularQ.At | common-cpp/deps/spdlog/include/spdlog/details/circular_q.h:76-80 | the i-th item held |
| CircularQueue.CircularQ.IsFull | common-cpp/deps/spdlog/include/spdlog/details/circular_q.h:87-93 | full exactly at capacity, never for a disabled queue |
| CircularQueue.CircularQ.MoveFrom | common-cpp/deps/spdlog/include/spdlog/details/circular_q.h:101-113 | takes over the contents and disables the source |
| CircularQueue.PushedIsLast | common-cpp/deps/spdlog/include/spdlog/details/backtracer-inl.h:43-46 | keeping the last n of all messages needs only the last n so far |
| CircularQueue.Backtracer.ForeachPop | common-cpp/deps/spdlog/include/spdlog/details/backtracer-inl.h:54-61 | replays the kept messages in order and empties the buffer |
| CircularQueue.Backtracer.PushBack | common-cpp/deps/spdlog/include/spdlog/details/backtracer-inl.h:43-46 | what is kept are the last n messages since it was enabled |
| CircularQueue.Backtracer.Enable | common-cpp/deps/spdlog/include/spdlog/details/backtracer-inl.h:30-34 | starts with an empty buffer of the given size |
| CircularQueue.Backtracer.Disable | common-cpp/deps/spdlog/include/spdlog/details/backtracer-inl.h:36-39 | what was kept can still be replayed |
| BlockingQueue.QueueConserves | common-cpp/deps/spdlog/include/spdlog/details/mpmc_blocking_q.h:31-90 | in any interleaving, what was accepted is what was removed and what is stored, in order; what the consumers took is what was removed, in order, without the overrun items, which are as many as counted; and offered = accepted + discarded when no thread is inside |
| BlockingQueue.FifoUnlessOverrun | common-cpp/deps/spdlog/include/spdlog/details/mpmc_blocking_q.h:31-90 | in any interleaving, accepted = taken + stored, item by item, exactly as long as nothing was overrun |
| BlockingQueue.NoLostWakeup | common-cpp/deps/spdlog/include/spdlog/details/mpmc_blocking_q.h:31-90 | in any interleaving without outstanding notices or woken threads, a consumer sleeps only on an empty queue and a producer only on a full one |
| BlockingQueue.BlockingIsFifo | common-cpp/deps/spdlog/include/spdlog/details/mpmc_blocking_q.h:31-90 | without the overrunning enqueue, nothing is overrun, and so items leave exactly in the order of acceptance |
| QueueHistory.HistoryDecides | common-cpp/deps/spdlog/include/spdlog/details/mpmc_blocking_q.h:31-90 | in any interleaving, the state follows from whether each operation found the queue full or empty: which items were accepted and in what order, how many were overrun, refused and taken, and what is stored |
| QueueHistory.WaitersAreKnown | common-cpp/deps/spdlog/include/spdlog/details/mpmc_blocking_q.h:31-90 | in any interleaving, the waiting producers are those whose blocking offers found no room and have not found it since, the waiting consumers those that found nothing, and one notification is made for each item accepted or taken |
| QueueHistory.ProducerIsWoken | common-cpp/deps/spdlog/include/spdlog/details/mpmc_blocking_q.h:75-88 | an outstanding notification wakes a waiting producer, or is spent |
| QueueHistory.TimeIsUp | common-cpp/deps/spdlog/include/spdlog/details/mpmc_blocking_q.h:63-75 | a consumer whose time is up on an empty queue leaves, and nothing else changes |
| BlockingQueue.StepConserves | common-cpp/deps/spdlog/include/spdlog/details/mpmc_blocking_q.h:31-90 | every step keeps the conservation laws and the order of the taken items |
| BlockingQueue.MpmcBlockingQueue.Enqueue | common-cpp/deps/spdlog/include/spdlog/details/mpmc_blocking_q.h:97-102 | waits exactly when full, otherwise appends |
| BlockingQueue.MpmcBlockingQueue.EnqueueNowait | common-cpp/deps/spdlog/include/spdlog/details/mpmc_blocking_q.h:105-109 | appends, dropping the oldest item and counting it when full |
| BlockingQueue.MpmcBlockingQueue.EnqueueIfHaveRoom | common-cpp/deps/spdlog/include/spdlog/details/mpmc_blocking_q.h:111-124 | appends, or counts a discard when full |
| BlockingQueue.MpmcBlockingQueue.Dequeue | common-cpp/deps/spdlog/include/spdlog/details/mpmc_blocking_q.h:128-146 | waits exactly when empty, otherwise takes the oldest item |
| Pstream.Interleave | pam-pcbiounlock/src/deps/pstream.h:1715-1728 | for any interleaving of reads, switches and availability checks, the characters obtained from each source are a prefix of what its pipe held, in order; if no read that waits gave nothing with more to come, they are as many as were asked of the source, up to the end of its bytes |
| Pstream.Fill | pam-pcbiounlock/src/deps/pstream.h:2075-2126 | refilling moves at most two consumed characters down, appends what the pipe gave, and loses nothing |
| Pstream.KeepPutback | pam-pcbiounlock/src/deps/pstream.h:2079-2088 | the characters kept are the last consumed ones, at most two |
| Pstream.PstreamReader.SwitchReadBuffer | pam-pcbiounlock/src/deps/pstream.h:1715-1728 | switching saves one source's pointers and restores the other's: neither stream moves |
| Pstream.PstreamReader.Underflow | pam-pcbiounlock/src/deps/pstream.h:2020-2028 | a buffered character is given without a read, otherwise the first that one read delivers; none exactly if nothing is buffered and the read delivers nothing |
| Pstream.PstreamReader.Bump | pam-pcbiounlock/src/deps/pstream.h:2020-2028 | extracts the next character of the active stream only; unless a read gave nothing with more to come, there is one exactly as long as the stream has not been extracted whole |
| Pstream.PstreamReader.ShowManyC | pam-pcbiounlock/src/deps/pstream.h:2053-2064 | the number of characters to be had without waiting, read into the buffer: 0 if the pipe would block, -1 exactly if it has ended or failed |
| Pstream.PstreamReader.Do | pam-pcbiounlock/src/deps/pstream.h:1715-1728 | one command keeps, for both sources, as many extracted characters as were asked for |
| Pstream.PstreamReader.PutBack | pam-pcbiounlock/src/deps/pstream.h:2038-2051 | steps back over the last consumed character if one is kept |
| Pstream.PstreamWriter.Xsputn | pam-pcbiounlock/src/deps/pstream.h:1971-1988 | terminates; the accepted prefix is what was added to piped plus buffered bytes, and it is everything exactly if the pipe never refused |
| Pstream.PstreamWriter.EmptyBuffer | pam-pcbiounlock/src/deps/pstream.h:1994-2012 | a partial write moves a prefix of the buffer to the pipe and keeps the rest in order; it fails exactly if nothing is buffered or the pipe takes nothing |
| Pstream.PstreamWriter.Overflow | pam-pcbiounlock/src/deps/pstream.h:1946-1957 | makes room and stores the character exactly if the pipe takes something of a non-empty buffer, and otherwise loses nothing |
| PatternFormatter.CompilePattern | common-cpp/deps/spdlog/include/spdlog/pattern_formatter-inl.h:1289-1323 | for every pattern, message and destination, running the compiled formatters does to the destination what the pattern means |
| PatternFormatter.SetPatternAndFormat | common-cpp/deps/spdlog/include/spdlog/pattern_formatter-inl.h:964-979 | the destination becomes what the pattern makes of it, followed by the line end; it fails exactly when a padder has to cut off more characters than there are |
| PatternFormatter.Format | common-cpp/deps/spdlog/include/spdlog/pattern_formatter-inl.h:964-979 | runs the formatters in order, each on what the one before has left of the destination |
| PatternFormatter.PaddedLength | common-cpp/deps/spdlog/include/spdlog/pattern_formatter-inl.h:38-83 | a padded text of k characters and width w has max(w, k) characters, or exactly w when truncated, with the text (or its beginning) in one piece |
| PatternFormatter.MemoryBuf.AppendPadded | common-cpp/deps/spdlog/include/spdlog/pattern_formatter-inl.h:38-83 | the padder's constructor, told a size, and its destructor around a text of any length: padding by that size, or cutting off the end of the destination by it |
| PatternFormatter.HandlePadspec | common-cpp/deps/spdlog/include/spdlog/pattern_formatter-inl.h:1244-1287 | reads side, width (wrapping, cut to 64) and truncation, and stops right behind them |
| PatternFormatter.HandleFlag | common-cpp/deps/spdlog/include/spdlog/pattern_formatter-inl.h:997-1239 | on every destination, the formatters pushed for a flag do what the flag means, unknown flags and `!` included |
| PatternFlags.FlagPrints | common-cpp/deps/spdlog/include/spdlog/pattern_formatter-inl.h:1008-1216 | each of the documented field flags, listed in a string, prints its text |
| PatternFlags.ContextPrints | common-cpp/deps/spdlog/include/spdlog/pattern_formatter-inl.h:790-825 | `%&` prints the pairs of the context one after the other |
| PatternFlags.DefaultPrints | common-cpp/deps/spdlog/include/spdlog/pattern_formatter-inl.h:1009-1012 | `%+` prints the whole message |
| PatternFlags.PercentPrints | common-cpp/deps/spdlog/include/spdlog/pattern_formatter-inl.h:1186-1188 | `%%` prints one percent sign |
| PatternFlags.MarksPrintNothing | common-cpp/deps/spdlog/include/spdlog/pattern_formatter-inl.h:1153-1159 | `%^` and `%$` print nothing |
| PatternFlags.UnknownPrintsItself | common-cpp/deps/spdlog/include/spdlog/pattern_formatter-inl.h:1218-1225 | any other character behind a percent sign is printed with it |
| PatternFlags.UnknownIgnoresWidth | common-cpp/deps/spdlog/include/spdlog/pattern_formatter-inl.h:1218-1225 | so it is behind a specification without truncation, unpadded |
| PatternFlags.FunctionBehindWidth | common-cpp/deps/spdlog/include/spdlog/pattern_formatter-inl.h:1226-1237 | an unknown flag behind a width and `!` prints the padded function name, uncut, and itself |
| PatternFlags.TextPrintsItself | common-cpp/deps/spdlog/include/spdlog/pattern_formatter-inl.h:1289-1323 | a pattern without a percent sign prints itself |
| PatternFlags.TrailingPercent | common-cpp/deps/spdlog/include/spdlog/pattern_formatter-inl.h:1289-1323 | a percent sign at the end of the pattern, with or without a side, prints nothing |
| PatternFlags.SpecRead | common-cpp/deps/spdlog/include/spdlog/pattern_formatter-inl.h:1244-1287 | a written specification is read back: side, width (up to 64) and truncation, and nothing more |
| PatternFlags.PaddedFlagPrints | common-cpp/deps/spdlog/include/spdlog/pattern_formatter-inl.h:1008-1216 | a padded flag of a truthful size prints its padded text |
| PatternFlags.PaddedTextPrints | common-cpp/deps/spdlog/include/spdlog/pattern_formatter-inl.h:1008-1216 | so does every flag whose size is not fixed, whatever its text |
| PatternFlags.TruthfulTimesIff | common-cpp/deps/spdlog/include/spdlog/pattern_formatter-inl.h:214-560 | which dates and times announce the size of what they print: all but `%D` and `%x` (never), `%Y` (years of four digits), `%E` (ten digits of seconds) and `%c` (one-digit days of September, two-digit days of the other months) |
| PatternFormatter.MemoryBuf.AppendField | common-cpp/deps/spdlog/include/spdlog/pattern_formatter-inl.h:790-825 | the texts of a flag (for `&`, one for each pair), each under a padder of its own that is told the size its formatter announces |
| PatternFormatter.TruthfulPad | common-cpp/deps/spdlog/include/spdlog/pattern_formatter-inl.h:38-83 | with a truthful size, exactly the padded text is added |
| PatternFormatter.EarlierOutputStaysIff | common-cpp/deps/spdlog/include/spdlog/pattern_formatter-inl.h:64-71 | a field leaves earlier output alone exactly if it does not cut off more than its own text, and fails exactly if it has to cut off more than there is |
| PatternFormatter.FieldLengthIff | common-cpp/deps/spdlog/include/spdlog/pattern_formatter-inl.h:40-71 | a field adds max(w, k) characters exactly if its size is truthful or both size and text fill the width; with truncation, it adds exactly w if and only if its size is truthful |
| PatternFormatter.KeepsEarlierIff | common-cpp/deps/spdlog/include/spdlog/pattern_formatter-inl.h:964-979 | a pattern leaves every destination's text in front alone exactly if it can be run on an empty buffer, and then prints the same everywhere |
| PatternFormatter.AllPatternsKeepIff | common-cpp/deps/spdlog/include/spdlog/pattern_formatter-inl.h:86-825 | earlier output stays under every pattern exactly if no flag announces a larger size than it prints |
| PatternFormatter.DateCutsBracket | common-cpp/deps/spdlog/include/spdlog/pattern_formatter-inl.h:257-273 | `[%1!D]` prints only the closing bracket, for every message: 10 is announced, 8 are printed |
| PatternFormatter.DateCutsEarlier | common-cpp/deps/spdlog/include/spdlog/pattern_formatter-inl.h:257-273 | `%1!D` takes a character of the earlier output away, and fails if there is none |
| PatternFormatter.DateIsNotPadded | common-cpp/deps/spdlog/include/spdlog/pattern_formatter-inl.h:257-273 | `%10D` adds 8 characters, and `%5!D` 3 |
| PacketFraming.FrameRoundTrip | common-cpp/src/connection/clients/TCPUnlockClient.cpp:60-115 | reading a written frame gives the payload back exactly if it is shorter than 65536 bytes, whatever follows |
| PacketFraming.TruncatedFrameIsEmpty | common-cpp/src/connection/clients/TCPUnlockClient.cpp:60-93 | a frame cut off anywhere is read as empty, never as a part of the payload |
| PacketFraming.Exchange | common-cpp/src/connection/clients/BTUnlockClient.cpp:68-123 | for any partial writes and reads and either byte order at each end, the reader gets the whole payload or nothing |
| PacketFraming.Socket.ReadPacket | common-cpp/src/connection/clients/TCPUnlockClient.cpp:60-93 | the two read loops return what the arriving bytes frame, or nothing when reading fails |
| PacketFraming.Socket.WritePacket | common-cpp/src/connection/clients/TCPUnlockClient.cpp:95-115 | the two write loops send a prefix of the frame, all of it when nothing fails |
| PacketFraming.NetworkOrder | common-cpp/src/connection/clients/TCPUnlockClient.cpp:73-75 | the swapped length lies in memory most significant byte first on either host and is swapped back |
| PacketCrypt.PacketRoundTrip | common-cpp/src/utils/CryptUtils.cpp:13-67 | for every payload the encoder accepts, decrypting gives it back exactly if the clocks differ by no more than the timeout; otherwise the timestamp is invalid, and an empty payload is an error |
| PacketCrypt.Transfer | common-cpp/src/utils/CryptUtils.cpp:13-67 | the same end to end for hosts of either byte order, for the payloads whose packets lie within the buffer (up to 968 bytes) and those that are refused (over 984) |
| PacketCrypt.EncryptAESPacket | common-cpp/src/utils/CryptUtils.cpp:13-40 | accepts up to 984 bytes; the packet lies within the 1024-byte buffer exactly up to 968 |
| PacketCrypt.DecryptAESPacket | common-cpp/src/utils/CryptUtils.cpp:42-67 | the verdict and the payload, from the opened bytes and the signed 64-bit clock difference |
| PacketCrypt.EncryptAES | common-cpp/src/utils/CryptUtils.cpp:69-134 | vector, salt, text and tag in this order; the tag lies behind the destination exactly when the guard accepts without room for it |
| PacketCrypt.DecryptAES | common-cpp/src/utils/CryptUtils.cpp:114-171 | the opened bytes within the destination, or 0 |
| PacketCrypt.ReverseBytes | common-cpp/src/utils/CryptUtils.cpp:204-214 | reverses the first n bytes in place on a little-endian host, and touches no others |
| PacketCrypt.BigEndianRoundTrip | common-cpp/src/utils/CryptUtils.cpp:22-23 | the eight bytes of the timestamp give it back |
| KerbPack.UnpackInvertsPack | win-pcbiounlock/src/helpers.cpp:517-545 | after packing and unpacking, the three views are the original strings |
| KerbPack.Transport | win-pcbiounlock/src/helpers.cpp:172-321 | from zero-terminated strings to an unpacked blob: succeeds exactly if each string exists and has at most 32767 units and the scenario is known, and then the views are theirs |
| KerbPack.RegionsTile | win-pcbiounlock/src/helpers.cpp:271-308 | the packed regions tile the space after the header: every offset there, and no other, is in one of three disjoint regions |
| KerbPack.PackedIsAccepted | win-pcbiounlock/src/helpers.cpp:517-545 | the bounds check accepts every packed blob, and every buffer becomes base plus offset |
| KerbPack.UnpackedOnce | win-pcbiounlock/src/helpers.cpp:517-545 | an unpacked blob no longer passes the check, so unpacking it again changes nothing |
| KerbPack.KerbInteractiveUnlockLogonPack | win-pcbiounlock/src/helpers.cpp:261-321 | the blob's header fields, size and bytes, and no other byte of memory is written; failure only without memory |
| KerbPack.CopiesAreOne | win-pcbiounlock/src/helpers.cpp:299-307 | copying string after string, the sources lying elsewhere, is writing the three texts at once |
| KerbPack.KerbInteractiveUnlockLogonUnpackInPlace | win-pcbiounlock/src/helpers.cpp:517-545 | rebases the three buffers if the check accepts (null stays null, sums wrap at the address size), and changes nothing else |
| KerbPack.UnpackedIs | win-pcbiounlock/src/helpers.cpp:517-545 | all three strings are moved by the base if the header fits and each ends within the blob by its wrapped sum, null staying null; otherwise none is |
| KerbPack.HeaderIsLaidOut | win-pcbiounlock/src/helpers.cpp:271-275 | the header is the message type, three strings and the logon identifier, with pointers aligned |
| KerbPack.UnicodeStringInitWithString | win-pcbiounlock/src/helpers.cpp:105-141 | succeeds exactly for a non-null string of at most 32767 units |
| KerbPack.KerbInteractiveUnlockLogonInit | win-pcbiounlock/src/helpers.cpp:172-241 | succeeds exactly if all three strings fit and the scenario is known; otherwise the output is untouched |

## Left out

- Sockets, Bluetooth discovery, TLS, PAM, COM, LSA, process creation and files: a socket or pipe is a sequence of bytes with arbitrary partial transfers and failures.
- AES-GCM, PBKDF2 and random bytes: parameters, with the laws that unsealing undoes sealing and that lengths are kept; the cipher is taken to refuse a negative length.
- The clock: the current time is a parameter, and the timeout too (30000 ms, or 120000 ms on Windows).
- JSON: a response is an abstract parse result, a token and a password or an error.
- Regular expressions: the two used on header lines are written out as matching functions.
- Compression (gzip, brotli): only the uncompressed chunked writer is modelled.
- ReadContentChunked: does not model the effect of trailer lines on the headers (they are percent-decoded).
- RoundTripIffOpeningIsWhole: says nothing of bodies in which an opening line stands elsewhere than at the beginning of an item, for example within content.
- MultipartRoundTrip: is stated for an opening line in the first chunk (RoundTripIffOpeningIsWhole says when it must be), and not for callbacks that refuse, whose answers may depend on the split.
- LoopAgrees: says nothing once a header line is too long, where the code and a machine that ignores chunks part, nor of callbacks that refuse; the same holds of the two below.
- TurnAgrees: as LoopAgrees.
- HeaderLinesAgree: as LoopAgrees.
- LaterChunksAddNothingIff: says nothing of further entries with a header line of 8192 bytes or more, for which the split matters; nor does LaterChunksHarmlessIff.
- QueryRoundTrip: is stated for keys that each survive on their own; PairIsReadBackIff says which those are.
- SplitDoesNotMatter: leaves header lines of 8192 bytes or more to LinesAreSplitIndependentIff, and what follows an end marker to UpToEndMarker and AfterMarker.
- WriteContentChunked: trailers (`done_with_trailer`) are not modelled; a provider is a list of calls that ends with the shutdown, if it gets there.
- WriteData: a stream whose writes return 0 for ever is not modelled; a write transfers at least one byte or fails.
- UnlockRace: printing messages, the key scanner and the sleeping between polls appear only as choices of a step (cancelled, timed out).
- UnlockRace: begins behind the check that the user has a paired device; without one, `GetResult` returns NOT_PAIRED_ERROR at once.
- ReturnedHasCause: with several servers, which worker's state is returned is said by UninterruptedResult for whole epilogues, and by SuccessIsAuthentic for a success.
- ReturnsIffAllDone: whether a given run goes on to return is a matter of scheduling; what is stated is whether it can.
- ClientSocket: the TLS variant, proxies and digest authentication.
- The queue: resetting its counters.
- Pstream: `sync`, the wide character variant and the modes of opening; the mode of the read pipe (blocking or not) is a parameter.
- PatternFormatter: custom flags; the texts of dates, times and thread numbers are parameters of a message, the sizes announced for them are the source's.
- Transfer: promises nothing for payloads of 969 to 984 bytes, whose packets the source writes past its buffer.
- KerbPack: header fields are fields of an object rather than bytes in memory; their size (36 or 64 bytes) is the platform's. Repacking by `CredUnpackAuthenticationBuffer` is foreign code.
- Multimap lookup order: `find` is taken to return the value inserted first.
- MIME tables, status messages, routing, the credential provider's screens, translations and log set-up: tables and plumbing without hard properties.
