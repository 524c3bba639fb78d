# ThirdTube core, modelled in Dafny

ThirdTube is a YouTube client for the Nintendo 3DS. This project models and proves the parts
of it that are plain sequential logic:

- the circular frame queue `output_buffer<T>` of the network decoder, with its waiting-status
  and stream-context rules (`network_decoder.dfy`);
- the HTTP/1.1 client's URL splitting, response-header parsing (`http_header.dfy`), the
  `NetworkResult` success test (`network_result.dfy`) and the incremental decoder for the
  chunked transfer coding of section 4.1 of RFC 7230, `ChunkProcessor` (`http_chunked.dfy`);
- the YouTube parser's URL builders and tests, the id extractor and validator, the page-type
  classification, the stream-format and author-icon choices, the `ratebypass` step and the
  innertube API-key scan (`stream_parser.dfy`), together with the result records and their
  query predicates (`youtube_types.dfy`);
- the channel page's index arithmetic: the displayed rows, the thumbnail request window and
  its cancel/request transition, loading priorities, tap hit-testing and `reset_channel_info`
  (`channel.dfy`);
- the scene stack of `Menu_main` and the PTMU battery table (`scene_switcher.dfy`).

`strings.dfy` holds the string searches the C++ code uses (`std::string::find`, `std::find`,
`starts_with`), `cpp_arith.dfy` C++'s truncating `/` and `%`, and `wrappers.dfy` an `Option`.

Objects whose fields the C++ code updates in place are classes:
- `OutputBuffer`;
- `ChunkProcessor`;
- `ChannelThumbnails`, which holds the channel page's globals;
- `SceneNavigator`, which holds `scene_stack` and `current_scene`.

The loops of the modelled functions are methods, each proved equal to a specification
function; this includes the pattern loops of `is_youtube_url` and `is_youtube_thumbnail_url`
(`StreamParser.MatchesAnyPattern`) and the ratebypass step of the per-format loop of
`extract_stream` (`StreamParser.AddRateBypass`). The properties are lemmas about those
functions. Calls into code that is not part of this model
are recorded as events (`Channel.Event`, `SceneSwitcher.SceneCall`) or become parameters:
- the thumbnail loader's returned handles are the parameter `newHandle`;
- `convert_url_to_mobile` is the parameter `toMobile`;
- `SMALL_MARGIN` is the parameter `smallMargin`;
- the viewport height `VIDEO_LIST_Y_HIGH` is the parameter `listHeight`.

Several record predicates are stated directly as the definitions of member predicates of the
`YoutubeTypes` datatypes:
- `SearchResult.HasContinue` and `ChannelDetail.HasContinue`;
- `Comment.HasMoreReplies`;
- `VideoDetail.HasMoreSuggestions`, `HasMoreComments`, `NeedsTimestampAdjusting` and `IsPlayable`.

These predicates are `ThirdTube/source/youtube_parser/parser.hpp:85,161,171-174,201`.
`IsPlayable` is tied to the format list by `StreamParser.PlayableIff`.

## Model

| member | source | states |
|---|---|---|
| NetworkDecoder.NextIndex | ThirdTube/include/network/network_decoder.hpp:55 | the wrap-around step `head == num ? 0 : head + 1` stays in `[0, num]` and is `+1` modulo `num + 1` |
| NetworkDecoder.CyclicSlots | ThirdTube/include/network/network_decoder.hpp:39-42 | the walk of `count` slot indices from a start index has length `count` |
| NetworkDecoder.AdvanceIsModular | ThirdTube/include/network/network_decoder.hpp:53-66 | advancing `k` steps lands on `from + k` modulo `num + 1` |
| NetworkDecoder.CyclicSlotsSnoc | ThirdTube/include/network/network_decoder.hpp:53-66 | one more step of the walk appends the slot reached after `count` steps |
| NetworkDecoder.CyclicSlotsBounded | ThirdTube/include/network/network_decoder.hpp:39-42 | every slot index of a walk is at most `num` |
| NetworkDecoder.OutputBuffer.Size | ThirdTube/include/network/network_decoder.hpp:39-42 | `size()` is at most `num`, and advancing `tail` by it reaches `head` |
| NetworkDecoder.OutputBuffer.Queued | ThirdTube/include/network/network_decoder.hpp:39-42 | the queued slot indices, oldest first, number `size()` |
| NetworkDecoder.OutputBuffer.Full | ThirdTube/include/network/network_decoder.hpp:43-45 | full exactly when the slot after `head` is `tail`, so one slot always stays free |
| NetworkDecoder.OutputBuffer.Empty | ThirdTube/include/network/network_decoder.hpp:46-48 | empty exactly when `head == tail` |
| NetworkDecoder.OutputBuffer.constructor | ThirdTube/include/network/network_decoder.hpp:20-23 | a fresh buffer has no slots and `num`, `head`, `tail` all 0 |
| NetworkDecoder.OutputBuffer.Init | ThirdTube/include/network/network_decoder.hpp:26-30 | with k >= 1 slots, `num == k - 1`, the slots are kept, and the buffer is empty |
| NetworkDecoder.OutputBuffer.Deinit | ThirdTube/include/network/network_decoder.hpp:31-37 | returns the slots and resets `num`, `head` and `tail` to 0 |
| NetworkDecoder.OutputBuffer.NextPushed | ThirdTube/include/network/network_decoder.hpp:49-52 | no slot exactly when full, otherwise `buffer[head]` |
| NetworkDecoder.OutputBuffer.Push | ThirdTube/include/network/network_decoder.hpp:53-57 | fails, changing nothing, exactly when full; otherwise advances `head`, grows `size()` by one, queues the old `head` and leaves the slots alone |
| NetworkDecoder.OutputBuffer.NextPopped | ThirdTube/include/network/network_decoder.hpp:58-61 | no slot exactly when empty, otherwise `buffer[tail]`, the oldest queued slot |
| NetworkDecoder.OutputBuffer.Pop | ThirdTube/include/network/network_decoder.hpp:62-66 | fails, changing nothing, exactly when empty; otherwise advances `tail`, shrinks `size()` by one and dequeues the oldest slot |
| NetworkDecoder.OutputBuffer.Clear | ThirdTube/include/network/network_decoder.hpp:67-69 | the buffer becomes empty with `head == tail`, and `tail` and the slots are unchanged |
| NetworkDecoder.PoppedArePushedPrefix | ThirdTube/include/network/network_decoder.hpp:49-66 | FIFO: the k-th slot popped is the k-th slot pushed |
| NetworkDecoder.NextPoppedIsNextPushed | ThirdTube/include/network/network_decoder.hpp:49-66 | the slot `get_next_poped` offers is the next one in push order |
| NetworkDecoder.ContextIndex | ThirdTube/include/network/network_decoder.hpp:82 | a track reads its own context when the streams are separate, and context 0 otherwise |
| NetworkDecoder.ContextsDistinctIffSeparate | ThirdTube/include/network/network_decoder.hpp:82 | video and audio use different contexts exactly when the streams are separate |
| NetworkDecoder.WaitingStatus | ThirdTube/include/network/network_decoder.hpp:140-144 | the video stream's status if it has one, else the audio stream's status, else none |
| NetworkResult.DefaultResult | ThirdTube/include/network/network_io.hpp:24-30 | a default result has `status_code == -1`, `fail == false` and empty fields |
| NetworkResult.NetworkResult.StatusCodeIsSuccess | ThirdTube/include/network/network_io.hpp:37 | every code from 200 to 299 is a success (the converse is `SuccessIffTwoHundreds`) |
| NetworkResult.SuccessIffTwoHundreds | ThirdTube/include/network/network_io.hpp:37 | under truncating division, success exactly for codes 200..299, so no negative code qualifies |
| NetworkResult.DefaultIsNotSuccess | ThirdTube/include/network/network_io.hpp:24-37 | a default result is not a success |
| NetworkResult.NamedCodes | ThirdTube/include/network/network_io.hpp:58-62 | 200, 204 and 206 succeed; 403 and 404 do not |
| NetworkResult.NotFoundIsNeitherFailNorSuccess | ThirdTube/include/network/network_io.hpp:24-37 | a 404 that arrived intact is neither a failure nor a success |
| Strings.StartsWith | ThirdTube/source/youtube_parser/stream_parser.cpp:769 | a prefix test that holds exactly when `find` meets the pattern at position 0 |
| Strings.FindFrom | ThirdTube/source/network/network_io.cpp:35 | `find(p, from)` gives the first occurrence at or after `from`, or `npos` when there is none |
| Strings.Find | ThirdTube/source/network/network_io.cpp:35 | `find(p)` gives the first occurrence, or `npos` when there is none |
| Strings.FindIsFirst | ThirdTube/source/network/network_io.cpp:35 | an occurrence with none before it is what `find` returns |
| Strings.IndexOfChar | ThirdTube/source/network/network_io.cpp:38 | `std::find` gives the first index holding `c`, or the end |
| Strings.IndexOfCharAt | ThirdTube/source/network/network_io.cpp:38 | the first `c` at or after `from` is the index `std::find` returns |
| HttpHeader.HostName | ThirdTube/source/network/network_io.cpp:34-39 | "" without "://"; otherwise the text after "://" up to the first '/', which holds no '/' |
| HttpHeader.PageUrl | ThirdTube/source/network/network_io.cpp:40-47 | "" without "://"; otherwise it starts with '/', and is "/" when no '/' follows the host |
| HttpHeader.UrlReassembly | ThirdTube/source/network/network_io.cpp:34-47 | the scheme and "://", then the host, then the page give back the URL when a '/' follows the host |
| HttpHeader.StripLeadingSpacesIsSuffix | ThirdTube/source/network/network_io.cpp:48-52 | the result is a suffix, only ' ' was removed, and it does not start with ' ' |
| HttpHeader.StripLeadingSpaces | ThirdTube/source/network/network_io.cpp:48-52 | the result is no longer than the input and does not start with ' ' |
| HttpHeader.StripLeadingSpacesIdempotent | ThirdTube/source/network/network_io.cpp:48-52 | stripping twice equals stripping once |
| HttpHeader.StripLeadingSpacesFrom | ThirdTube/source/network/network_io.cpp:49-50 | skipping leading spaces first does not change the result |
| HttpHeader.RemoveLeadingWhitespaces | ThirdTube/source/network/network_io.cpp:48-52 | the index loop computes the stripped text |
| HttpHeader.SplitLines | ThirdTube/source/network/network_io.cpp:63-67 | splitting at '\n' always gives at least one line |
| HttpHeader.SplitLinesRoundTrip | ThirdTube/source/network/network_io.cpp:63-67 | no line holds '\n', and joining the lines with '\n' gives the header back |
| HttpHeader.DropCr | ThirdTube/source/network/network_io.cpp:69 | removes at most one trailing '\r' |
| HttpHeader.CleanLines | ThirdTube/source/network/network_io.cpp:68-72 | the kept lines are non-empty and no more numerous than the input |
| HttpHeader.CleanLinesAppend | ThirdTube/source/network/network_io.cpp:68-72 | cleaning a concatenation cleans each part and keeps their order |
| HttpHeader.CleanLinesMembers | ThirdTube/source/network/network_io.cpp:68-72 | a line is kept exactly when some input line, with its trailing '\r' dropped, equals it and is not empty |
| HttpHeader.SkipSpaces | ThirdTube/source/network/network_io.cpp:86-96 | the first index at or after `i` that is not `isspace` |
| HttpHeader.DigitsEnd | ThirdTube/source/network/network_io.cpp:88 | the first index at or after `i` that is not a decimal digit |
| HttpHeader.StrToL | ThirdTube/source/network/network_io.cpp:88-89 | a parsed number ends after at least one character and within the line |
| HttpHeader.ToDecimal | ThirdTube/source/network/network_io.cpp:88 | the decimal writing of a number is a non-empty run of digits (the reference writer for `strtol`) |
| HttpHeader.DecimalRoundTrip | ThirdTube/source/network/network_io.cpp:88 | reading back the decimal writing of `n` gives `n` |
| HttpHeader.DigitsEndIs | ThirdTube/source/network/network_io.cpp:88 | the digit scan stops exactly at the first non-digit |
| HttpHeader.DigitsEndAfter | ThirdTube/source/network/network_io.cpp:88 | the digit run after a prefix is exactly the digits written there when a non-digit follows |
| HttpHeader.StrToLRoundTrip | ThirdTube/source/network/network_io.cpp:88-89 | round trip: `strtol` at the start of a decimal writing of `n` followed by a non-digit returns `n` and ends right after the digits |
| HttpHeader.StrToLRoundTripNegative | ThirdTube/source/network/network_io.cpp:88-89 | the same with a leading '-': it returns `-n` and ends after the sign and the digits |
| HttpHeader.FieldOf | ThirdTube/source/network/network_io.cpp:100-106 | a line contributes a field exactly when it holds ':' |
| HttpHeader.HeaderFieldsKeys | ThirdTube/source/network/network_io.cpp:99-108 | a key is in the map exactly when some line with a colon carries it |
| HttpHeader.HeaderFieldsLastWins | ThirdTube/source/network/network_io.cpp:107 | a key's value comes from the last line that carries that key |
| HttpHeader.HeaderFields | ThirdTube/source/network/network_io.cpp:99-108 | no lines give the empty map, and the last line with a colon always sets its key to its value |
| HttpHeader.FieldsHaveNoLeadingSpace | ThirdTube/source/network/network_io.cpp:105-106 | keys and values never start with ' ' |
| HttpHeader.MalformedStatusIsEmpty | ThirdTube/source/network/network_io.cpp:76-93 | no line, a wrong version prefix, or no number after it leaves code -1, no message and no headers; otherwise the code is the parsed number |
| HttpHeader.UnsignedStrToL | ThirdTube/source/network/network_io.cpp:88 | a number that starts with a digit is read, and its value is not negative |
| HttpHeader.UnsignedStatusCode | ThirdTube/source/network/network_io.cpp:88 | a status code written without a sign is never -1 |
| HttpHeader.SkipSpacesIs | ThirdTube/source/network/network_io.cpp:86 | the white-space scan stops exactly at the first other character |
| HttpHeader.SkipSpacesOver | ThirdTube/source/network/network_io.cpp:86 | the scan after a prefix skips exactly the white space written there |
| HttpHeader.StatusCodeStart | ThirdTube/source/network/network_io.cpp:85-86 | after "HTTP/1.x" the scan skips the spaces and stops at the first digit of the code |
| HttpHeader.StatusLineCode | ThirdTube/source/network/network_io.cpp:85-89 | a status line "HTTP/1.x", spaces, the decimal writing of `n` and a non-digit reads the code `n` and ends right after its digits |
| HttpHeader.StatusMessage | ThirdTube/source/network/network_io.cpp:96 | the message is the status line after the code and its spaces, cut at the first NUL as the `c_str()` copy cuts it; it holds no NUL, and without a NUL it is the whole rest |
| HttpHeader.StatusMessageStopsAtNul | ThirdTube/source/network/network_io.cpp:96 | "HTTP/1.1 200 OK\0x" gives the message "OK" |
| HttpHeader.ParsedHeader | ThirdTube/source/network/network_io.cpp:59-110 | the status message holds no NUL, and header fields appear only when a line follows the status line |
| HttpHeader.SplitHeaderLines | ThirdTube/source/network/network_io.cpp:63-67 | the splitting loop computes `SplitLines` |
| HttpHeader.CleanHeaderLines | ThirdTube/source/network/network_io.cpp:68-72 | the cleaning loop computes `CleanLines` |
| HttpHeader.CollectHeaderFields | ThirdTube/source/network/network_io.cpp:99-108 | the field loop computes `HeaderFields` |
| HttpHeader.ParseHeader | ThirdTube/source/network/network_io.cpp:59-110 | `parse_header` computes `ParsedHeader`; its message loop copies up to the first NUL |
| HttpChunked.FindCrlfFrom | ThirdTube/source/network/network_io.cpp:134-135 | the first CR LF at or after `from`, or none |
| HttpChunked.FindCrlfFromIsFirst | ThirdTube/source/network/network_io.cpp:135 | a CR LF with none before it is the one found |
| HttpChunked.HexDigitValue | ThirdTube/source/network/network_io.cpp:122-124 | a hex digit's value is below 16 |
| HttpChunked.ToLowerHex | ThirdTube/source/network/network_io.cpp:123-124 | lower-casing keeps the length |
| HttpChunked.HexValueCaseInsensitive | ThirdTube/source/network/network_io.cpp:123-124 | `parse_hex` gives the same value for upper- and lower-case digits |
| HttpChunked.HexDigitChar | ThirdTube/source/network/network_io.cpp:122-124 | the digit written for a value below 16 is read back as that value |
| HttpChunked.ToHex | ThirdTube/source/network/network_io.cpp:118-131 | a length written in hex is never empty |
| HttpChunked.ToHexRoundTrip | ThirdTube/source/network/network_io.cpp:118-131 | `parse_hex` reads back a length written in hex |
| HttpChunked.ParseSize | ThirdTube/source/network/network_io.cpp:133-141 | no CR LF leaves both sizes -1; otherwise the size line's length and its hex value, -1 and `error` when it is not all hex |
| HttpChunked.Run | ThirdTube/source/network/network_io.cpp:148-175 | the decoding of `push` keeps the processor's fields consistent |
| HttpChunked.Feed | ThirdTube/source/network/network_io.cpp:146-176 | `push` keeps the processor's fields consistent |
| HttpChunked.FeedAll | ThirdTube/source/network/network_io.cpp:146-176 | a sequence of pushes gives one answer per piece |
| HttpChunked.ChunkProcessor.constructor | ThirdTube/source/network/network_io.cpp:111-116 | a new processor has empty buffers, both sizes -1 and no error |
| HttpChunked.ChunkProcessor.ParseHex | ThirdTube/source/network/network_io.cpp:118-131 | the hex value ("" is 0), or -1 with `error` set at a non-hex character |
| HttpChunked.ChunkProcessor.TryToParseSize | ThirdTube/source/network/network_io.cpp:133-141 | the method computes `ParseSize` |
| HttpChunked.ChunkProcessor.Push | ThirdTube/source/network/network_io.cpp:146-176 | the method computes `Feed` |
| HttpChunked.ChunkProcessor.TakeChunk | ThirdTube/source/network/network_io.cpp:153-173 | one turn of the `while` loop shrinks the buffer and keeps the outcome of `Run` |
| HttpChunked.ParseSizeIgnoresSize | ThirdTube/source/network/network_io.cpp:136-139 | `try_to_parse_size` overwrites both size fields |
| HttpChunked.HexSizedChunkIsValid | ThirdTube/source/network/network_io.cpp:139 | a non-empty payload with its length in hex is a valid data chunk |
| HttpChunked.FindCrlfAfterLine | ThirdTube/source/network/network_io.cpp:135 | a size line without CR ends at the first CR LF |
| HttpChunked.NoCrlfInShortPrefix | ThirdTube/source/network/network_io.cpp:135-136 | a cut-off size line holds no CR LF |
| HttpChunked.FindCrlfAppend | ThirdTube/source/network/network_io.cpp:147 | appended bytes do not move the first CR LF |
| HttpChunked.ParseSizeLine | ThirdTube/source/network/network_io.cpp:133-141 | on a buffer starting with a size line, the line's length and value are taken |
| HttpChunked.DataChunkTaken | ThirdTube/source/network/network_io.cpp:153-162 | a complete data chunk moves its payload to `result` |
| HttpChunked.ChunkStep | ThirdTube/source/network/network_io.cpp:153-173 | a complete data chunk is decoded and decoding goes on after it |
| HttpChunked.LastChunkStep | ThirdTube/source/network/network_io.cpp:164-169 | the zero-size chunk answers 1 when nothing follows it, and -1 otherwise |
| HttpChunked.RunEncoded | ThirdTube/source/network/network_io.cpp:146-176 | a whole encoding decodes to the concatenated payloads |
| HttpChunked.PayloadCons | ThirdTube/source/network/network_io.cpp:161 | the payloads accumulate in order |
| HttpChunked.FirstChunkStep | ThirdTube/source/network/network_io.cpp:153-173 | decoding an encoding reduces to decoding the rest after its first chunk |
| HttpChunked.PrefixSplit | ThirdTube/source/network/network_io.cpp:147 | a prefix at least as long as `a` of `a + b` is `a` and then a prefix of `b` |
| HttpChunked.ShortPrefixWaits | ThirdTube/source/network/network_io.cpp:148-151 | without a complete size line `push` answers 0 and keeps the bytes |
| HttpChunked.PartialChunkWaits | ThirdTube/source/network/network_io.cpp:153-175 | with the size read but the chunk incomplete, `push` answers 0 |
| HttpChunked.EncodeFirst | ThirdTube/source/network/network_io.cpp:153-173 | an encoding starts with its first chunk's size line and data |
| HttpChunked.PrefixInFirstChunk | ThirdTube/source/network/network_io.cpp:148-175 | a prefix that ends inside the first chunk answers 0 without error |
| HttpChunked.PrefixPastFirstChunk | ThirdTube/source/network/network_io.cpp:153-175 | a prefix past the first chunk decodes that chunk and goes on |
| HttpChunked.RunProperPrefix | ThirdTube/source/network/network_io.cpp:146-176 | before the encoding is complete, `push` answers 0 without error |
| HttpChunked.ParseSizeAppend | ThirdTube/source/network/network_io.cpp:135-139 | parsing the size commutes with appending bytes once a CR LF is there |
| HttpChunked.RunAppend | ThirdTube/source/network/network_io.cpp:146-176 | two pushes give what one push of the joined bytes gives, once the first answered 0 |
| HttpChunked.RunAppendUnknownSize | ThirdTube/source/network/network_io.cpp:148-151 | the same, when no size is known yet |
| HttpChunked.RunAppendKnownSize | ThirdTube/source/network/network_io.cpp:153-175 | the same, when a size is known |
| HttpChunked.CompleteChunkTaken | ThirdTube/source/network/network_io.cpp:153-173 | a complete, correctly ended chunk is taken by the loop |
| HttpChunked.ConcatSplit | ThirdTube/source/network/network_io.cpp:147 | joining pieces splits at the first piece |
| HttpChunked.FeedOnePiece | ThirdTube/source/network/network_io.cpp:146-147 | one more piece after a prefix answered 0 acts like pushing the joined bytes |
| HttpChunked.FeedPieces | ThirdTube/source/network/network_io.cpp:146-176 | the rest of an encoding, in pieces, answers 0 and then 1 at the last piece |
| HttpChunked.LastPiece | ThirdTube/source/network/network_io.cpp:164-169 | the complete encoding answers 1 and leaves the payloads with nothing left over |
| HttpChunked.MiddlePiece | ThirdTube/source/network/network_io.cpp:175 | a proper prefix of the encoding answers 0 |
| HttpChunked.ConcatLastNonEmpty | ThirdTube/source/network/network_io.cpp:147 | joined pieces whose last piece is non-empty are non-empty |
| HttpChunked.DecodeInPieces | ThirdTube/source/network/network_io.cpp:146-176 | round trip: an encoding pushed in any pieces answers 0 to each piece but the last, 1 to the last, and leaves exactly the concatenated payloads |
| HttpChunked.DecodeWhole | ThirdTube/source/network/network_io.cpp:146-176 | an encoding pushed at once answers 1 with the concatenated payloads |
| HttpChunked.TrailingBytesRejected | ThirdTube/source/network/network_io.cpp:165-168 | bytes pushed together with the zero-size chunk answer -1 |
| HttpChunked.PushAfterEnd | ThirdTube/source/network/network_io.cpp:146-176 | after the end, `size` stays 0: a later push answers 0 while fewer than `size_size + 4` bytes are buffered, then -1 without CR LF at the chunk's end or with more bytes, and 1 for exactly that many |
| HttpChunked.TerminatorTwiceInTwoPushes | ThirdTube/source/network/network_io.cpp:146-176 | "0\r\n\r\n" pushed twice, in two pushes, answers 1 both times |
| HttpChunked.SplitDecidesTrailingTerminator | ThirdTube/source/network/network_io.cpp:164-169 | the same bytes in one push answer -1, so the split of the input decides the answer |
| HttpChunked.EncodeSplit | ThirdTube/source/network/network_io.cpp:146-176 | a whole body is its data chunks followed by the last chunk |
| HttpChunked.RunDataChunks | ThirdTube/source/network/network_io.cpp:150-174 | good data chunks at the front of the buffer are decoded one by one, whatever follows |
| HttpChunked.RunIgnoresSizeSize | ThirdTube/source/network/network_io.cpp:148 | with no size known, the old `size_size` plays no part |
| HttpChunked.ErrorIsSticky | ThirdTube/source/network/network_io.cpp:146-149 | once `error` is set, every later push answers -1 and keeps it set |
| HttpChunked.MissingCrlfAtFront | ThirdTube/source/network/network_io.cpp:151-159 | a chunk at the front of the buffer whose payload is not followed by CR LF answers -1 |
| HttpChunked.BadSizeLineRejected | ThirdTube/source/network/network_io.cpp:118-150 | on any processor between chunks, a size line up to the first CR LF that is not all hex digits (an extension, or a stray '\r'), even after good chunks in the same push, answers -1 and sets `error` |
| HttpChunked.MissingCrlfAfterDataRejected | ThirdTube/source/network/network_io.cpp:155-159 | on any processor between chunks, a payload not followed by CR LF answers -1, even after good chunks in the same push |
| YoutubeTypes.FromVideo | ThirdTube/source/youtube_parser/parser.hpp:67-73 | the item is tagged VIDEO; its url, thumbnail and name come from the video |
| YoutubeTypes.FromChannel | ThirdTube/source/youtube_parser/parser.hpp:67-73 | the item is tagged CHANNEL; url, icon as thumbnail, and name come from the channel |
| YoutubeTypes.FromPlaylist | ThirdTube/source/youtube_parser/parser.hpp:67-73 | the item is tagged PLAYLIST; url, thumbnail and title come from the playlist |
| YoutubeTypes.ItemKindsDistinct | ThirdTube/source/youtube_parser/parser.hpp:66-69 | items built from different kinds of payload differ |
| YoutubeTypes.SuccinctItem.GetUrl | ThirdTube/source/youtube_parser/parser.hpp:71 | the URL of one of the three payloads, the channel's for a channel item |
| YoutubeTypes.SuccinctItem.GetThumbnailUrl | ThirdTube/source/youtube_parser/parser.hpp:72 | the thumbnail of one of the three payloads, the channel's icon for a channel item |
| YoutubeTypes.SuccinctItem.GetName | ThirdTube/source/youtube_parser/parser.hpp:73 | the title or name of one of the three payloads, the channel's name for a channel item |
| Strings.TakeUntil | ThirdTube/source/youtube_parser/stream_parser.cpp:756 | the text from `from` up to the first `c` or the end, holding no `c` |
| Strings.CopyUntil | ThirdTube/source/youtube_parser/stream_parser.cpp:756 | the `push_back` loop computes `TakeUntil` |
| Strings.TakeUntilAbsent | ThirdTube/source/network/network_io.cpp:96 | with no `c` after `from`, the whole rest is taken |
| StreamParser.ThumbnailUrl | ThirdTube/source/youtube_parser/stream_parser.cpp:742-744 | the URL starts with "https://i.ytimg.com/vi/" |
| StreamParser.ThumbnailHqUrl | ThirdTube/source/youtube_parser/stream_parser.cpp:745-747 | the hq URL starts with "https://i.ytimg.com/vi/" |
| StreamParser.VideoUrl | ThirdTube/source/youtube_parser/stream_parser.cpp:748-750 | the watch URL starts with the watch prefix and is followed by "v=" and the id |
| StreamParser.IdFromThumbnailUrl | ThirdTube/source/youtube_parser/stream_parser.cpp:751-758 | "" without "i.ytimg.com/vi/"; otherwise the text after it up to the next '/', which holds no '/' |
| StreamParser.VideoIdFromThumbnailUrl | ThirdTube/source/youtube_parser/stream_parser.cpp:751-758 | the method computes `IdFromThumbnailUrl` |
| StreamParser.ThumbnailHostAfterScheme | ThirdTube/source/youtube_parser/stream_parser.cpp:752 | in a built thumbnail URL the host is found right after "https://" |
| StreamParser.ThumbnailRoundTrip | ThirdTube/source/youtube_parser/stream_parser.cpp:742-758 | both thumbnail URLs of an id without '/' give the id back |
| StreamParser.IdBeforeSlash | ThirdTube/source/youtube_parser/stream_parser.cpp:756 | an id followed by '/' is taken whole |
| StreamParser.IsValidVideoId | ThirdTube/source/youtube_parser/stream_parser.cpp:759-763 | true exactly for 11 characters, each a letter, a digit, '-' or '_' |
| StreamParser.StartsWithAnyIff | ThirdTube/source/youtube_parser/stream_parser.cpp:764-779 | the pattern test is true exactly when some pattern is a prefix |
| StreamParser.AnyPatternIsHttps | ThirdTube/source/youtube_parser/stream_parser.cpp:764-779 | a URL that starts with one of a list of https patterns is an https URL |
| StreamParser.MatchesAnyPattern | ThirdTube/source/youtube_parser/stream_parser.cpp:764-779 | the pattern loop, returning at the first match, computes `StartsWithAny` |
| StreamParser.IsYoutubeUrlIff | ThirdTube/source/youtube_parser/stream_parser.cpp:764-771 | true exactly for URLs starting with the mobile or the www host |
| StreamParser.IsYoutubeThumbnailUrlIff | ThirdTube/source/youtube_parser/stream_parser.cpp:772-779 | true exactly for URLs starting with the i.ytimg.com or yt3.ggpht.com prefix |
| StreamParser.IsYoutubeUrl | ThirdTube/source/youtube_parser/stream_parser.cpp:764-771 | only an https URL is a YouTube URL |
| StreamParser.IsYoutubeThumbnailUrl | ThirdTube/source/youtube_parser/stream_parser.cpp:772-779 | only an https URL is a thumbnail URL |
| StreamParser.VideoUrlIsYoutubeUrl | ThirdTube/source/youtube_parser/stream_parser.cpp:748-771 | a watch URL starts with "https://m.youtube.com/watch?" and is a YouTube URL |
| StreamParser.ThumbnailUrlIsThumbnail | ThirdTube/source/youtube_parser/stream_parser.cpp:742-779 | both built thumbnail URLs pass the thumbnail test |
| StreamParser.DifferAt | ThirdTube/source/youtube_parser/stream_parser.cpp:782-786 | prefixes that differ at some position cannot both start a string |
| StreamParser.PagePrefixesExclusive | ThirdTube/source/youtube_parser/stream_parser.cpp:782-786 | the five page prefixes exclude each other, so the order of the tests does not matter |
| StreamParser.GetPageType | ThirdTube/source/youtube_parser/stream_parser.cpp:780-788 | each page type holds exactly when the mobile URL starts with one of its prefixes |
| StreamParser.VideoUrlIsVideoPage | ThirdTube/source/youtube_parser/stream_parser.cpp:748-788 | a watch URL that the mobile rewrite leaves alone is a video page |
| StreamParser.RateBypassAdded | ThirdTube/source/youtube_parser/stream_parser.cpp:211 | after the step the URL contains "ratebypass"; a URL that held it is unchanged |
| StreamParser.RateBypassIdempotent | ThirdTube/source/youtube_parser/stream_parser.cpp:211 | the step is idempotent |
| StreamParser.WithRateBypass | ThirdTube/source/youtube_parser/stream_parser.cpp:211 | the step only appends: the old URL is a prefix of the new one, which is never empty |
| StreamParser.RateBypassed | ThirdTube/source/youtube_parser/stream_parser.cpp:211-214 | one format after the step: only its URL changes, it extends the old URL, contains "ratebypass" and is non-empty |
| StreamParser.RateBypassAll | ThirdTube/source/youtube_parser/stream_parser.cpp:194-216 | the loop's result: as many formats, only the URLs change, each extends the old one, contains "ratebypass" and is non-empty |
| StreamParser.AddRateBypass | ThirdTube/source/youtube_parser/stream_parser.cpp:194-216 | the in-place loop over the formats computes `RateBypassAll` |
| StreamParser.RateBypassKeepsStreams | ThirdTube/source/youtube_parser/stream_parser.cpp:194-216 | the rewrite keeps which muxed, audio and video-only streams exist |
| StreamParser.IsVideoFormat | ThirdTube/source/youtube_parser/stream_parser.cpp:235-237 | a video format never has an audio mime type, so no format is both |
| StreamParser.IsAudioFormat | ThirdTube/source/youtube_parser/stream_parser.cpp:238-240 | an audio format never has a video mime type |
| StreamParser.Filter | ThirdTube/source/youtube_parser/stream_parser.cpp:234-241 | filtering never lengthens the list |
| StreamParser.FilterMembers | ThirdTube/source/youtube_parser/stream_parser.cpp:234-241 | a format is kept exactly when it is in the input and passes the test |
| StreamParser.LastIndex | ThirdTube/source/youtube_parser/stream_parser.cpp:224-271 | the last index whose format passes the test, or none when no format does |
| StreamParser.LivestreamIff | ThirdTube/source/youtube_parser/stream_parser.cpp:224-230 | the page is live exactly when some format has `targetDurationSec` |
| StreamParser.FragmentLen | ThirdTube/source/youtube_parser/stream_parser.cpp:218-230 | -1 when no format has `targetDurationSec`, otherwise the value of the last one that has it |
| StreamParser.ClassifyFormats | ThirdTube/source/youtube_parser/stream_parser.cpp:218-242 | the loop yields the H.264 video and WebM audio lists in order, the last target duration, and the live flag |
| StreamParser.AudioChoice | ThirdTube/source/youtube_parser/stream_parser.cpp:244-253 | the first audio format with the strictly greatest bitrate, which must exceed -1; none when no bitrate does |
| StreamParser.ChooseAudioUrl | ThirdTube/source/youtube_parser/stream_parser.cpp:244-253 | the loop keeps the chosen format's URL, or the previous value |
| StreamParser.ItagUrlsKeys | ThirdTube/source/youtube_parser/stream_parser.cpp:256-267 | only the keys 144, 240 and 360 are ever added |
| StreamParser.ItagToP | ThirdTube/source/youtube_parser/stream_parser.cpp:256-260 | only the itags 160, 133 and 134 map, and only to 144, 240 or 360 |
| StreamParser.ItagUrls | ThirdTube/source/youtube_parser/stream_parser.cpp:261-267 | existing keys stay, and each new key comes from some format's itag |
| StreamParser.ItagUrlsLastWins | ThirdTube/source/youtube_parser/stream_parser.cpp:261-266 | for itags 160, 133 and 134 the last format with that itag decides the key; with no such format the key is untouched |
| StreamParser.CollectVideoUrls | ThirdTube/source/youtube_parser/stream_parser.cpp:256-267 | the loop computes `ItagUrls` |
| StreamParser.ChooseBothStreamUrl | ThirdTube/source/youtube_parser/stream_parser.cpp:269-271 | the URL of the last itag-18 format, or the previous value |
| StreamParser.ExtractStreams | ThirdTube/source/youtube_parser/stream_parser.cpp:218-272 | the format-selection part of `extract_stream` computes `SelectStreams` |
| StreamParser.SelectStreams | ThirdTube/source/youtube_parser/stream_parser.cpp:218-272 | only the five stream fields change, and the page is live exactly when some format has `targetDurationSec` |
| StreamParser.PlayableIff | ThirdTube/source/youtube_parser/parser.hpp:174 | a fresh page whose formats carry URLs is playable exactly when its status is OK and it has an itag-18 stream, or an audio stream together with a 144p/240p/360p stream |
| StreamParser.PlayableAfterRateBypass | ThirdTube/source/youtube_parser/stream_parser.cpp:194-272 | on the formats after the ratebypass step, which all carry URLs, the same equivalence holds with no assumption about the URLs |
| StreamParser.MuxedStream | ThirdTube/source/youtube_parser/stream_parser.cpp:269-271 | `both_stream_url` is set exactly when an itag-18 H.264 format exists |
| StreamParser.AudioStream | ThirdTube/source/youtube_parser/stream_parser.cpp:244-253 | `audio_stream_url` is set exactly when a WebM audio format has a bitrate above -1 |
| StreamParser.VideoOnlyStreams | ThirdTube/source/youtube_parser/stream_parser.cpp:256-267 | `video_stream_urls` is non-empty exactly when a 160/133/134 H.264 format exists |
| StreamParser.VideoOnlyFormatGivesUrl | ThirdTube/source/youtube_parser/stream_parser.cpp:261-266 | a mapped video format yields an entry |
| StreamParser.NoVideoOnlyFormatNoUrls | ThirdTube/source/youtube_parser/stream_parser.cpp:261-266 | without a mapped video format the map stays empty |
| StreamParser.IconChoice | ThirdTube/source/youtube_parser/stream_parser.cpp:307-317 | the first icon below 256 px that minimises the distance to 70 px, if closer than 100000 |
| StreamParser.ChosenIconUrl | ThirdTube/source/youtube_parser/stream_parser.cpp:307-318 | a non-empty choice is the URL of some icon lower than 256 |
| StreamParser.ChooseIcon | ThirdTube/source/youtube_parser/stream_parser.cpp:555-568 | the comment-author icon loop keeps the chosen icon's URL, or "" |
| StreamParser.OwnerIconUrlIsAbsolute | ThirdTube/source/youtube_parser/stream_parser.cpp:320 | a "//" icon gets "https:" in front, and others are unchanged |
| StreamParser.OwnerIconUrl | ThirdTube/source/youtube_parser/stream_parser.cpp:320 | the stored URL ends with the icon URL |
| StreamParser.ChooseOwnerIcon | ThirdTube/source/youtube_parser/stream_parser.cpp:307-320 | the owner icon is the chosen icon's URL, made absolute |
| StreamParser.ApiKeyOf | ThirdTube/source/youtube_parser/stream_parser.cpp:417-422 | the text between `"INNERTUBE_API_KEY":"` and the next '"', which holds no '"'; "" without the prefix |
| StreamParser.ApiKeyOfPage | ThirdTube/source/youtube_parser/stream_parser.cpp:417-422 | a page holding the key entry, with no '"' before it, yields exactly that key |
| StreamParser.ExtractApiKey | ThirdTube/source/youtube_parser/stream_parser.cpp:416-427 | the key is appended to `continue_key`, and an empty key sets `error` |
| CppArith.Quot | ThirdTube/source/scenes/channel.cpp:330-331 | C++'s `/` on `int`: the remainder is smaller than the divisor in magnitude and has the dividend's sign |
| CppArith.Rem | ThirdTube/source/scenes/channel.cpp:330-331 | C++'s `%`: smaller than the divisor in magnitude, with the dividend's sign, and `a == b * (a / b) + a % b` |
| CppArith.QuotOfNatural | ThirdTube/source/scenes/channel.cpp:330-331 | for a non-negative dividend and positive divisor, truncating and Euclidean division agree |
| CppArith.QuotMonotone | ThirdTube/source/scenes/channel.cpp:330-331 | truncating division by a positive divisor is monotone in the dividend |
| Channel.DisplayedRangeBounds | ThirdTube/source/scenes/channel.cpp:327-331 | the displayed rows satisfy `0 <= displayed_l <= displayed_r <= video_num` under truncating division |
| Channel.ListTop | ThirdTube/source/scenes/channel.cpp:328-329 | the list starts below icon, margins and tab bar, and further down by the banner exactly when there is one |
| Channel.DisplayedRange | ThirdTube/source/scenes/channel.cpp:327-331 | both ends are at most `videoNum` and, for a non-negative count, not negative |
| Channel.DisplayedIffVisible | ThirdTube/source/scenes/channel.cpp:327-331 | once the list has reached the viewport, a row is displayed exactly when it overlaps the viewport |
| Channel.LowerBoundIff | ThirdTube/source/scenes/channel.cpp:330 | the lower bound of the displayed rows, in pixel terms |
| Channel.UpperBoundIff | ThirdTube/source/scenes/channel.cpp:331 | the upper bound of the displayed rows, in pixel terms |
| Channel.RequestWindowBounds | ThirdTube/source/scenes/channel.cpp:355-356 | `0 <= request_target_l <= request_target_r <= video_num`, at most 30 rows |
| Channel.RequestWindowCoversDisplayed | ThirdTube/source/scenes/channel.cpp:355-356 | with at most 30 rows displayed, all of them are in the request window |
| Channel.RequestWindow | ThirdTube/source/scenes/channel.cpp:355-356 | the window lies in `[0, videoNum]` and spans at most `MAX_THUMBNAIL_LOAD_REQUEST` rows |
| Channel.PriorityIff | ThirdTube/source/scenes/channel.cpp:371-372 | priority is at least 500 exactly for displayed rows |
| Channel.PriorityFallsWithDistance | ThirdTube/source/scenes/channel.cpp:371-372 | outside the displayed rows, priority falls with distance |
| Channel.Dist | ThirdTube/source/scenes/channel.cpp:371 | the distance is positive exactly for rows outside the displayed range |
| Channel.Priority | ThirdTube/source/scenes/channel.cpp:372 | rows above or below the displayed range lose one priority step per row of distance |
| Channel.TabAtScreen | ThirdTube/source/scenes/channel.cpp:465 | a tap on the tab bar selects tab 0 or 1, split at x = 160 |
| Channel.TabAt | ThirdTube/source/scenes/channel.cpp:465 | an on-screen x picks a tab in `[0, TAB_NUM)` |
| Channel.VideoTapIff | ThirdTube/source/scenes/channel.cpp:462-479 | video `i` is selected exactly when the tap lands on the thumbnail part of displayed row `i` |
| Channel.TapTarget | ThirdTube/source/scenes/channel.cpp:462-479 | a tab tap on screen names a real tab; a video tap needs tab 0, lies below the list top and hits a displayed row |
| Channel.RowOf | ThirdTube/source/scenes/channel.cpp:473-475 | quotient and remainder locate the row and its thumbnail part |
| Channel.Cancelled | ThirdTube/source/scenes/channel.cpp:364 | cancelling keeps the number of handles |
| Channel.Requested | ThirdTube/source/scenes/channel.cpp:365 | requesting keeps the number of handles |
| Channel.PriorityList | ThirdTube/source/scenes/channel.cpp:370 | the list has one entry per row of the window |
| Channel.PriorityListEntries | ThirdTube/source/scenes/channel.cpp:370-373 | each entry pairs the row's handle with its priority, at least 500 exactly for displayed rows |
| Channel.TransitionEffect | ThirdTube/source/scenes/channel.cpp:353-368 | the new window is the target window, at most 30 rows; cancelled rows hold -1, new rows the new handle, and the others keep theirs |
| Channel.Transition | ThirdTube/source/scenes/channel.cpp:353-368 | the state stays valid with one handle per row, and events are only appended |
| Channel.RequestedRowsAreNew | ThirdTube/source/scenes/channel.cpp:358-365 | a row is requested exactly when it is in the new window and not the old one |
| Channel.CancelledRowsAreOld | ThirdTube/source/scenes/channel.cpp:357-364 | a handle is cancelled exactly when it belongs to a row of the old window that is not in the new one |
| Channel.CancelEventsOf | ThirdTube/source/scenes/channel.cpp:364 | one cancel per cancelled index, with that row's handle |
| Channel.CancelEventsAreCancels | ThirdTube/source/scenes/channel.cpp:364 | the cancel loop makes only cancel calls |
| Channel.RequestEventsAreAdded | ThirdTube/source/scenes/channel.cpp:365 | the request loop asks exactly for the new indexes |
| Channel.RequestEventsAreRequests | ThirdTube/source/scenes/channel.cpp:365 | the request loop makes only request calls |
| Channel.ChannelThumbnails.State | ThirdTube/source/scenes/channel.cpp:50-52 | the request state is the handles, the two bounds and the loader calls |
| Channel.ChannelThumbnails.constructor | ThirdTube/source/scenes/channel.cpp:50-54 | the page starts with no handles, an empty window and no icon or banner request |
| Channel.ChannelThumbnails.ResetChannelInfo | ThirdTube/source/scenes/channel.cpp:59-66 | cancels every handle of the window, then the icon and banner handles if set; clears the handles, zeroes both bounds and resets the channel |
| Channel.ChannelThumbnails.UpdateRequests | ThirdTube/source/scenes/channel.cpp:351-374 | the thumbnail update computes `Transition` and leaves the icon, banner and channel alone |
| Channel.TransitionSets | ThirdTube/source/scenes/channel.cpp:357-362 | cancelling = old window minus new; new = new window minus old |
| Channel.CancelRequests | ThirdTube/source/scenes/channel.cpp:364 | the cancel loop sets the cancelled handles to -1 and cancels them in ascending order |
| Channel.RequestThumbnails | ThirdTube/source/scenes/channel.cpp:365 | the request loop stores the new handles and requests them in ascending order |
| Channel.BuildPriorityList | ThirdTube/source/scenes/channel.cpp:370-373 | the loop computes `PriorityList` |
| SceneSwitcher.NextStack | ThirdTube/source/scene_switcher.cpp:244-248 | the stack after one step is never empty |
| SceneSwitcher.KeepRunning | ThirdTube/source/scene_switcher.cpp:243-263 | `Menu_main` returns false exactly for EXIT |
| SceneSwitcher.NextStackValid | ThirdTube/source/scene_switcher.cpp:244-248 | every step keeps the stack non-empty, free of control values and free of equal neighbours |
| SceneSwitcher.IgnoredIntents | ThirdTube/source/scene_switcher.cpp:243-244 | EXIT, NO_CHANGE and an intent equal to the top leave the stack unchanged |
| SceneSwitcher.ReturnPops | ThirdTube/source/scene_switcher.cpp:245-247 | an intent equal to the entry below the top pops instead of pushing |
| SceneSwitcher.BackPops | ThirdTube/source/scene_switcher.cpp:246-247 | BACK pops only when at least two entries are on the stack |
| SceneSwitcher.OtherIntentsPush | ThirdTube/source/scene_switcher.cpp:248 | any other scene intent is pushed and becomes the top |
| SceneSwitcher.ForwardThenReturn | ThirdTube/source/scene_switcher.cpp:244-248 | opening a new scene and then asking for the previous top restores the stack |
| SceneSwitcher.RunStackValid | ThirdTube/source/scene_switcher.cpp:179-248 | any run of intents keeps the stack valid |
| SceneSwitcher.RunStack | ThirdTube/source/scene_switcher.cpp:243-250 | the stack is never empty, and intents that change nothing leave it as it was |
| SceneSwitcher.StepCalls | ThirdTube/source/scene_switcher.cpp:218-259 | at most a suspend then a resume; the current scene is suspended whenever the intent is not NO_CHANGE (EXIT and an intent equal to the top included), and the new top is resumed exactly when the intent is handled |
| SceneSwitcher.SuspendWithoutResume | ThirdTube/source/scene_switcher.cpp:219-244 | EXIT, and an intent equal to the top, suspend the current scene and resume nothing, leaving the stack as it is |
| SceneSwitcher.SceneNavigator.constructor | ThirdTube/source/scene_switcher.cpp:179 | the stack starts as a single SEARCH intent, with the search scene current |
| SceneSwitcher.SceneNavigator.Step | ThirdTube/source/scene_switcher.cpp:218-263 | the step computes `NextStack` and `current_scene == scene_stack.back().next_scene`; it records `StepCalls`: a suspend whenever the intent is not NO_CHANGE, and a resume of the new top exactly when the intent is handled |
| SceneSwitcher.PtmuPercent | ThirdTube/source/scene_switcher.cpp:283-296 | the table is defined exactly for levels 0..5 |
| SceneSwitcher.PtmuPercentIncreasing | ThirdTube/source/scene_switcher.cpp:284-295 | the table 0, 5, 10, 30, 60, 100 is strictly increasing |
| SceneSwitcher.BatteryLevelRawCases | ThirdTube/source/scene_switcher.cpp:273-296 | the MCU level wins; otherwise the table applies, and an unknown level keeps the old value |
| SceneSwitcher.BatteryLevelRaw | ThirdTube/source/scene_switcher.cpp:273-296 | without the MCU level, a PTMU level 0..5 gives a percentage in 0..100 and any other keeps the previous value |

## Left out

- Decoder internals (FFmpeg, the MVD hardware decoder, the `buffered_pts_list` mutex): these are foreign code. The queue is modelled sequentially, without the `volatile` single-producer/single-consumer aspect.
- NetworkDecoder.OutputBuffer.Init: the model requires at least one slot. With an empty vector `size() - 1` wraps around `size_t`, and the callers are not part of this model.
- Text is `seq<char>`, and each `char` stands for one byte of a `std::string`. Multi-byte UTF-8 sequences stay separate bytes, as they do in the code.
- Network I/O: `access_http_internal`, the redirect loops, `NetworkSession`, `get_header` and `finalize` are calls into the console's HTTP service.
- HttpHeader.StrToL: reads an optional sign and decimal digits as an unbounded integer; its value is tied to the decimal writer `ToDecimal` by `StrToLRoundTrip`. `strtol`'s clamping on overflow is not modelled.
- HttpChunked.ChunkProcessor.ParseHex: sizes are unbounded, so `int` overflow of a long size line is not modelled.
- For EXIT, and for an intent equal to the top of `scene_stack`, `Menu_main` suspends the current scene and resumes none (`SceneSwitcher.SuspendWithoutResume`); the model keeps that behaviour of the code.
- After the zero-size chunk `ChunkProcessor` keeps `size` at 0, so later pushes are read as further zero-size chunks (`HttpChunked.PushAfterEnd`); the model keeps that behaviour of the code.
- The `n`-parameter rewrite inside the per-format loop of `extract_stream` is regex and deciphering work and is left out; `StreamParser.AddRateBypass` models the rest of that loop.
- Chunk extensions and trailer fields are not supported by `ChunkProcessor`; the model reports an extension as an error, as the code does.
- JSON and regex extraction, signature and `n`-parameter deciphering, the file cache, and the continuation, comment and caption loaders of `stream_parser.cpp` are left out. Together they make up most of that file. Their inputs reach the model as plain `Format` and `Icon` records.
- `approxDurationMs` / `stoll` and the floating-point caption times are not modelled.
- `convert_url_to_mobile`, `parse_parameters` and `get_text_from_object` have no body in this model. The first is the parameter `toMobile`; the other two are not used by the modelled rules.
- Channel UI: drawing, the float darkness and scroll amounts, mutex calls and async task queueing are left out. So are `load_channel` and the subscribe-button hit test.
- The thumbnail loader's calls are modelled only as events, with the handles it returns as a parameter.
- Channel.CancelRequests and Channel.RequestThumbnails walk the index interval and test membership, where the code iterates over `std::set` in ascending order. The calls are made in the same order.
- `SMALL_MARGIN` and the viewport height are defined outside the modelled file, so they are parameters.
- `std::abs` overflow at `INT_MIN` in the icon distance is not modelled, because heights are unbounded integers here.
- The `SceneType` enum and the equality operator on `Intent` are not part of this model. The enum is modelled with the values `Menu_main` uses, and equality compares both fields.
- The scenes' own draw, suspend and resume functions are left out; the intent is a parameter and the hooks are recorded as calls.
- System plumbing in `scene_switcher.cpp`: service init and exit, threads, the idle thresholds of `Menu_worker_thread`, RAM, clock and Wi-Fi probing, and the update download.
- The start-up error screen of `Menu_main` (missing sound service or an old 3DS) is left out.
- SceneSwitcher.BatteryLevelRaw: the MCU voltage and the charge state are not modelled.
- Other files: `module.c`, `parser_portable.cpp`, `internal_common.hpp` (declarations only) and `headers.hpp` (includes only) hold no logic of the modelled core.
