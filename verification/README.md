# Verified models of httplib, getopt, CSND, GC-ADPCM and microprofile

This project models five pieces of the AzaharTrigger sources and proves what they promise.

- **HTTP message coding and the client socket protocol** (`externals/httplib/httplib.h`): the streaming multipart parser
  with its compacting buffer and the serializer it undoes; chunked transfer coding through both buffering layers; the
  lock protocol of `send`, `send_` and `stop`; nested redirects and digest retries; query strings, percent-coding and
  base64.
- **getopt** (`externals/getopt/getopt.c`): the in-place block exchange and the scanner that calls it, over whole runs.
- **CSND sound channels** (`src/audio_core/csnd.cpp`) and **the GC-ADPCM decoder** (`src/audio_core/codec.cpp`).
- **Profiler log accounting** (`externals/microprofile/microprofile.h`): the log ring, of the size that
  `src/common/microprofile.h:16` sets, the flips that replay it some frames late, and the totals they accumulate.

## How the project is built

Code that updates things in place is modelled by classes, arrays and loops: `MultipartParser.MultipartFormDataParser`,
`GetoptData.Data`, `Stream.Socket`, `Stream.SocketStream`, `Stream.LineReader`, `ChunkedWriter.DataSink`, `Csnd.Csnd`,
`Adpcm.State`, `ProfilerThread.Ring`, `ProfilerThread.Stacks` and `ProfilerThread.ThreadLog`. Each of their methods is
proved equal to a function on values (`Parse`, `OneCall`, `Dechunk`, `Step`, `TapsAfter`, `ReplayAll` and so on), and
the theorems are lemmas about those functions. The main results:

| result | where |
|---|---|
| multipart round trip for every cut of the body, and exactly which cuts lose items | `MultipartRun`, `MultipartStray`, `MultipartSplit`, `MultipartMain` |
| content callbacks are the bytes before the first delimiter, for every cut | `MultipartBody` |
| extended file names; refused callbacks, rejected lines and garbage over whole runs | `MultipartExtended`, `MultipartReject` |
| chunked coding round trip through sink, socket and line reader, however `recv` cuts the stream, and exactly when the reader accepts what a provider sent | `Chunked`, `ChunkedWriter`, `ChunkedReader`, `ChunkedTransfer` |
| trailer fields through writer and reader, and exactly which survive | `Trailer`, `ChunkedWriter`, `ChunkedReader` |
| the asserts of the client hold in every interleaving of sends and stops; along every run, exactly when there is a socket, when it has TLS and when a stop takes effect | `ClientSocket` |
| nested sends end against every server, with the exact bound on the nesting | `NestedSend` |
| a whole getopt run is a stable partition of the arguments, or leaves them alone, by ordering | `GetoptPermute`, `GetoptOrder`, `GetoptMain` |
| what an option element is, from the declarations alone, and the round trip of spelled-out arguments through whole runs | `GetoptWords` |
| loop periodicity, one-shot length, timer exactness, mixer bounds, the invariant over register writes and renders | `CsndPlayback`, `CsndTimer`, `CsndMixer`, `Csnd` |
| which bytes make which samples of a block, in plain arithmetic | `CsndSamples` |
| the recurrence that the GC-ADPCM output satisfies and that determines it, split decoding, and the exact 32-bit range of the filter | `Adpcm` |
| exclusive time is conserved and group time is not counted twice, however flips cut the log | `ProfilerScopes`, `ProfilerForest`, `ProfilerThread` |
| query and base64 round trips, and exactly which multimaps survive a query string | `Query`, `QueryExact`, `Base64` |

Strings are sequences of characters that stand for bytes. Integers are unbounded; where a width matters it is written
out (32-bit accumulators in `Base64`, `CsndTimer` and `Adpcm`, 32-bit addresses in `CsndChannel`, 64-bit log entries
with 48-bit ticks in `ProfilerEntry`, `strtoul` overflow in `HexLength`). Signed 32-bit overflow, where the code can
reach it, is modelled as two's-complement wrap-around, and the lemmas say exactly when it cannot happen.

### Where the code and its promises part

- A multipart body whose first piece of data does not hold the whole first boundary line loses items, because the initial
  state erases the buffer when the line is incomplete (`MultipartSplit.FirstByteAlone`). For every body that the round trip
  covers and every cut, `MultipartSplit.SplitExactness` proves that this is the only way to lose any.
- A provider that makes an empty write ends the chunked body with success and without its last chunk
  (`ChunkedWriter.EmptyWriteLoses`). `ChunkedWriter.AcceptedIffDone` says exactly when the reader accepts what was sent.
- A stop that finds a request in flight is forgotten when a nested send enters before that request exits
  (`ClientSocket.StopForgotten`). `ClientSocket.ExitCloses` says exactly when an exit closes the socket.
- Interpolation goes wrong in two ways. The product can leave 32 bits (`CsndTimer.InterpolationWraps`), and a paused
  channel whose timer is rewritten can keep a counter past its period (`CsndTimer.PausedLeaves`). `CsndTimer.FineIff` is
  the exact condition on counter and period, and `CsndTimer.RunningFineIff` the exact condition on the timer of a running
  channel: a period of at most 0x8001.
- A comment in `MicroProfileFlip` speaks of keeping the last frame in the ring, but the code moves the read cursor to the
  write cursor, so only the current frame is protected, while flips replay frames some flips late: three full frames lose
  an entry that the next flip is to replay (`ProfilerThread.Overrun`). `ProfilerLog.HeldIff` and
  `ProfilerLog.RangeHoldsIff` say exactly which entries and frames are still there.
- A repeated query pair is kept once (`Query.RepeatedPair`), and keys are decoded on reading but not encoded on writing.
  `QueryExact.QueryExactness` says exactly which multimaps survive.
- A form field named `a;b` comes back as `"a` (`MultipartHeader.SplitName`). A name or filename survives its header line
  if and only if it is plain (`MultipartHeader.DispositionRoundTrip`).
- A trailer field's value is percent-decoded on reading but not encoded on writing (`Trailer.DecodedField`).
  `Trailer.FieldRoundTrip` says exactly which fields survive.

## Model

| member | source | states |
|---|---|---|
| `Text.TrimRange` | externals/httplib/httplib.h:2456-2465 | the trimming loops find exactly the text without blanks and tabs at both ends, or that nothing is left |
| `Text.TrimsBlanksAndTabs` | externals/httplib/httplib.h:2454-2470 | blanks and tabs go from both ends, and nothing else does |
| `Text.TrimResult` | externals/httplib/httplib.h:2456-2470 | a trimmed text has no blank at either end and only characters of the original |
| `Text.PrefixIff` | externals/httplib/httplib.h:4426-4433 | prefixes are compared without regard to the case of letters, and to nothing else |
| `Text.SplitLoop` | externals/httplib/httplib.h:2479-2497 | for every delimiter, the splitting loop gives the trimmed, non-empty pieces between delimiters, in order |
| `Text.SplitPieces` | externals/httplib/httplib.h:2479-2497 | every piece is trimmed, non-empty, free of the delimiter and made of characters of the text |
| `Percent.FromHexToI` | externals/httplib/httplib.h:2208-2223 | reads exactly the given number of hex digits, or fails at the end of the text and at a non-digit |
| `Percent.EncodeQueryParamLoop` | externals/httplib/httplib.h:2348-2367 | the loop escapes every byte that is not unreserved |
| `Percent.EncodedChars` | externals/httplib/httplib.h:2348-2367 | an encoded text holds only unreserved characters and percent signs |
| `Percent.DecodeTurn` | externals/httplib/httplib.h:2404-2432 | one turn of the decoder: a byte escape, a `%u` escape, a plus or a plain character, and how far it reads |
| `Percent.DecodeUrlLoop` | externals/httplib/httplib.h:2401-2436 | the loop decodes the whole text, malformed escapes included |
| `Percent.DecodeInvertsEncode` | externals/httplib/httplib.h:2348-2436 | decoding inverts encoding on every byte string, with either plus flag |
| `Percent.DecodePlain` | externals/httplib/httplib.h:2401-2436 | text without percent signs (and, if plus signs are read, without those) decodes to itself |
| `Percent.UpperDigits` | externals/httplib/httplib.h:2348-2367 | escapes are written with upper-case digits |
| `Percent.KeptIff` | externals/httplib/httplib.h:2348-2367 | the encoder keeps exactly letters, digits and -_.!~*'() |
| `Percent.EscapeDecoded` | externals/httplib/httplib.h:2404-2432 | a percent sign and two digits in either letter case are read as the byte they spell |
| `Percent.StrayPercent` | externals/httplib/httplib.h:2404-2432 | a percent sign that starts no escape stands for itself |
| `Percent.DecodePlus` | externals/httplib/httplib.h:2401-2436 | without percent signs, decoding turns exactly the plus signs into blanks |
| `Percent.UnicodeDecoded` | externals/httplib/httplib.h:2404-2416 | a %u escape is read as the UTF-8 coding of its code point |
| `Percent.Utf8RoundTrip` | externals/httplib/httplib.h:2235-2266 | a decoder by section 3 of RFC 3629 gives back every coded code point; exactly surrogates and values out of range are coded as nothing |
| `Percent.DecodeShrinks` | externals/httplib/httplib.h:2401-2436 | decoding never lengthens a text |
| `Params.SplitPairLoop` | externals/httplib/httplib.h:4183-4191 | the key is the first piece around `=` and the value the last, as the callback leaves them |
| `Params.ParseListLoop` | externals/httplib/httplib.h:4176-4232 | the list parser enters every first occurrence of a pair with a key, in key order |
| `Params.PairSplits` | externals/httplib/httplib.h:4183-4191 | a trimmed key and value without `=` are read back from `key=value` |
| `Params.GatherOrigin` | externals/httplib/httplib.h:4176-4232 | every parameter comes from a piece of the text |
| `Params.GatherKeeps` | externals/httplib/httplib.h:4176-4232 | parameters already there stay, and a new piece with a key is entered |
| `Query.ParamsToQueryStr` | externals/httplib/httplib.h:4164-4174 | the loop writes the pairs in order, values encoded, joined by `&` |
| `Query.QueryRoundTrip` | externals/httplib/httplib.h:4164-4197 | with plain keys, parsing a written query gives the multimap without repeated pairs, hence the multimap itself if and only if no pair repeats |
| `Query.RepeatedPair` | externals/httplib/httplib.h:4164-4197 | one pair given twice comes back once |
| `QueryExact.ItemWeight` | externals/httplib/httplib.h:4164-4197 | the pairs that one written item is read as weigh less than its pair, unless its key is not empty, trimmed, free of separators and unchanged by decoding |
| `QueryExact.QueryExactness` | externals/httplib/httplib.h:4164-4197 | any multimap of byte strings comes back from its query string if and only if all its keys are such and no pair repeats |
| `Base64.Base64Encode` | externals/httplib/httplib.h:2269-2295 | with its wrapping 32-bit accumulator, the encoder computes the encoding of section 4 of RFC 4648 for inputs of every length |
| `Base64.DecodesBack` | externals/httplib/httplib.h:2269-2295 | a decoder of that encoding gives back every byte string |
| `Base64.BitsOf` | externals/httplib/httplib.h:2279-2289 | the six bits read at each shift depend only on the last two bytes, however the accumulator has wrapped |
| `MultipartHeader.ContentTypeRoundTrip` | externals/httplib/httplib.h:4323-4326 | a content type survives its header line if and only if it is trimmed |
| `MultipartHeader.DispositionRoundTrip` | externals/httplib/httplib.h:4327-4366 | name and filename survive the Content-Disposition line if and only if both are plain |
| `MultipartExtended.ExtendedRead` | externals/httplib/httplib.h:4348-4361 | an extended file name is accepted if and only if it starts with UTF-8'' in any letter case and goes on; what goes on is decoded and overrides a plain file name |
| `MultipartExtended.ExtendedRoundTrip` | externals/httplib/httplib.h:4348-4361 | every non-empty byte string arrives as file name when percent-coded in an extended one |
| `MultipartExtended.SpelledOtherwise` | externals/httplib/httplib.h:4328-4333 | letter case and white space in the header line do not matter |
| `MultipartHeader.SplitName` | externals/httplib/httplib.h:4327-4366 | the name a;b comes back as an opening quote and an a |
| `MultipartSpec.TurnShrinks` | externals/httplib/httplib.h:4293-4414 | every turn of the parse loop that goes on uses up input or moves from the entry state to the header state |
| `MultipartParser.MultipartFormDataParser.constructor` | externals/httplib/httplib.h:4276-4286 | a parser with a boundary set starts in the initial state with an empty buffer |
| `MultipartParser.MultipartFormDataParser.StartsWith` | externals/httplib/httplib.h:4446-4453 | compares the buffer at a position with a text |
| `MultipartParser.MultipartFormDataParser.BufStartsWith` | externals/httplib/httplib.h:4461-4463 | tells whether the unread bytes begin with a text |
| `MultipartParser.MultipartFormDataParser.BufFind` | externals/httplib/httplib.h:4465-4486 | returns the least match in the unread bytes, or their number if there is none |
| `MultipartParser.MultipartFormDataParser.BufAppend` | externals/httplib/httplib.h:4488-4504 | compaction, growth and copying in place keep the unread bytes and add the new ones behind them |
| `MultipartParser.MultipartFormDataParser.BufErase` | externals/httplib/httplib.h:4506-4506 | drops exactly the given number of unread bytes |
| `MultipartParser.MultipartFormDataParser.InitialBoundary` | externals/httplib/httplib.h:4295-4302 | case 0 does what the initial turn says, erasing everything on a mismatch |
| `MultipartParser.MultipartFormDataParser.ReadHeaderLine` | externals/httplib/httplib.h:4320-4369 | one header line updates the file fields or is rejected |
| `MultipartParser.MultipartFormDataParser.Call` | externals/httplib/httplib.h:4312-4318 | a callback is made with the fields so far; a refused one leaves the parser invalid |
| `MultipartParser.MultipartFormDataParser.Headers` | externals/httplib/httplib.h:4308-4372 | case 2 does what the header turn says, the length limit included |
| `MultipartParser.MultipartFormDataParser.Body` | externals/httplib/httplib.h:4373-4395 | case 3 delivers up to the delimiter, or all but one delimiter length of the buffer |
| `MultipartParser.MultipartFormDataParser.Boundary` | externals/httplib/httplib.h:4396-4413 | case 4 tells a further part from the end and waits while the bytes do not decide it |
| `MultipartParser.MultipartFormDataParser.ParseCall` | externals/httplib/httplib.h:4288-4417 | one call of `parse` on the mutable parser is one call of the parser on values |
| `MultipartParser.MultipartFormDataParser.ParseBody` | externals/httplib/httplib.h:4288-4417 | calls on one piece after another are the run that the round-trip theorems speak of |
| `MultipartReject.RefusalHeard` | externals/httplib/httplib.h:4308-4395 | for every body and cut: after a refused callback there is no other, the calls fail and the parser is invalid |
| `MultipartReject.BadLineRejected` | externals/httplib/httplib.h:4323-4366 | a header line that is not understood ends the run in failure without a callback |
| `MultipartReject.LongLineRejected` | externals/httplib/httplib.h:4309-4312 | so does one beyond the length limit |
| `MultipartReject.GarbageIgnored` | externals/httplib/httplib.h:4396-4411 | behind a boundary, anything but a line break or two dashes makes the parser take everything that follows without a word |
| `MultipartBody.BodyRefinement` | externals/httplib/httplib.h:4373-4395 | for every cut of the input, content callbacks add up to the bytes before the first delimiter, and at most one delimiter length is held back between calls |
| `MultipartSerializer.SerializeLoop` | externals/httplib/httplib.h:4557-4600 | the serializer writes every item's boundary, headers, blank line and content, then the closing line |
| `MultipartSerializer.SerializedTail` | externals/httplib/httplib.h:4557-4600 | a serialized body is the opening boundary line followed by entries separated by the parser's delimiter |
| `MultipartRun.OneTurn` | externals/httplib/httplib.h:4293-4414 | every turn of the parser keeps its place in the serialized items |
| `MultipartRun.LoopStands` | externals/httplib/httplib.h:4288-4417 | so does every whole call, and with nothing left to come it has finished |
| `MultipartRun.MultipartRoundTrip` | externals/httplib/httplib.h:4276-4600 | parsing a serialized body gives back its items in order and ends valid, for every cut whose first call holds the first boundary line |
| `MultipartStray.LateTurn` | externals/httplib/httplib.h:4293-4414 | a parser that met a boundary line too late stays ahead of the items it has collected, or holds an item that cannot become the right one, after every turn |
| `MultipartStray.LateFeed` | externals/httplib/httplib.h:4288-4417 | such a parser never delivers the items, whatever the cut of what is still to come |
| `MultipartStray.WrongFeed` | externals/httplib/httplib.h:4308-4372 | a parser that missed lines of the first header delivers the items of a body with another first item |
| `MultipartSplit.LostForever` | externals/httplib/httplib.h:4295-4302 | once bytes of the first boundary line are lost, the items do not come back, wherever a boundary line is found next |
| `MultipartSplit.LostRun` | externals/httplib/httplib.h:4295-4302 | if the boundary line occurs in the body only at items, exactly a proper suffix of the items comes back |
| `MultipartSplit.FirstByteAlone` | externals/httplib/httplib.h:4295-4302 | one field whose body is cut behind its first byte does not arrive |
| `MultipartSplit.SplitExactness` | externals/httplib/httplib.h:4288-4417 | for every body that the round trip covers and every cut: all items arrive, and the run ends valid, if and only if the first non-empty piece holds the whole first boundary line |
| `MultipartMain.ReceiveForm` | externals/httplib/httplib.h:4276-4600 | the parser object, fed the serialized items in any such pieces, ends valid and its callbacks give back the items |
| `HexLength.FromIToHex` | externals/httplib/httplib.h:2225-2233 | the loop writes a number in lower-case hex |
| `HexLength.LowerDigits` | externals/httplib/httplib.h:2225-2233 | the digits are those of "0123456789abcdef" |
| `HexLength.StrtoulToHex` | externals/httplib/httplib.h:2225-2233 | `strtoul` in base 16 reads back every written number and leaves exactly what follows it unread |
| `HexLength.StrtoulSpelled` | externals/httplib/httplib.h:3799-3804 | the number read from any spelling with white space, sign and 0x: wrapped around if negative, the largest if too large |
| `Stream.SocketStream.Read` | externals/httplib/httplib.h:5316-5360 | reading through the buffer loses, repeats and reorders nothing; zero bytes mean the end of the stream |
| `Stream.SocketStream.FromBuffer` | externals/httplib/httplib.h:5325-5336 | buffered bytes are handed out in order |
| `Stream.SocketStream.Refill` | externals/httplib/httplib.h:5338-5359 | a refill keeps what was received beyond the request for later |
| `Stream.LineReader.Append` | externals/httplib/httplib.h:2551-2562 | the line so far moves from the fixed buffer to the overflow string without loss |
| `Stream.LineReader.GetLine` | externals/httplib/httplib.h:2525-2549 | reads exactly the first line of the stream, or what is left of it at the end |
| `Chunked.ChunkedRoundTrip` | externals/httplib/httplib.h:3787-3840 | the encoding of any non-empty writes is read back as their concatenation, and reading stops at the first byte behind it |
| `Chunked.HugeRejected` | externals/httplib/httplib.h:3803-3804 | a size that does not fit is rejected |
| `Chunked.NulEnds` | externals/httplib/httplib.h:3801-3804 | a size line is read as far as its first NUL |
| `Chunked.CutRejected` | externals/httplib/httplib.h:3787-3840 | wherever a coding breaks off, the reader rejects it, having delivered no more than a part of the payload |
| `Chunked.BrokenEnding` | externals/httplib/httplib.h:4087-4103 | the same for an ending whose two lines were each sent in part, even the second after a broken first |
| `ChunkedReader.ReadContentWithLength` | externals/httplib/httplib.h:3735-3755 | delivers exactly the announced number of bytes, or fails on a broken socket, a refusal or a short stream |
| `ChunkedReader.ReadChunk` | externals/httplib/httplib.h:3808-3816 | one chunk's data is delivered and its end line and next size line are read |
| `Trailer.ParseHeader` | externals/httplib/httplib.h:3662-3694 | the loops find the key before the first colon and the trimmed value behind it, decoded unless the key is Location, or that there is no field |
| `Trailer.FieldRoundTrip` | externals/httplib/httplib.h:3662-3694 | a field survives its line if and only if its key has no colon and its value is not empty, trimmed and unchanged by the decoding |
| `Trailer.LocationKept` | externals/httplib/httplib.h:3686-3688 | every value of Location is kept as it is, in whatever letter case the key is written |
| `Trailer.LongFieldRejected` | externals/httplib/httplib.h:3822-3837 | a field line beyond the length limit makes the reader fail |
| `Trailer.DecodedField` | externals/httplib/httplib.h:3686-3688 | a value %41 comes back as A |
| `Trailer.TrailerRoundTrip` | externals/httplib/httplib.h:3787-3840 | payload and trailer of every coding with one-line fields are read, up to the first byte behind it, and the fields come back if and only if each survives its line |
| `ChunkedReader.ReadTrailerLines` | externals/httplib/httplib.h:3822-3837 | the trailer's lines are read up to the empty line, and exactly the fields in them are collected |
| `ChunkedReader.ReadContentChunked` | externals/httplib/httplib.h:3787-3840 | on any socket schedule the reader does to the stream what the decoder on values does, and a failing run delivers a prefix |
| `ChunkedWriter.DataSink.Write` | externals/httplib/httplib.h:4034-4060 | a write sends one chunk, or a part of it and then fails for good; nothing for no data, which ends the data |
| `ChunkedWriter.DataSink.Finish` | externals/httplib/httplib.h:4062-4106 | done sends its two lines, the second even when the first broke off, and ends the data |
| `ChunkedWriter.DataSink.FinishWithTrailer` | externals/httplib/httplib.h:4062-4110 | done with a trailer sends the last chunk, a line for each field and the empty line, each whatever became of those before |
| `ChunkedWriter.TrailerReadBack` | externals/httplib/httplib.h:4062-4110 | if all of that goes through, the reader has the payload and stops behind the trailer, with the fields given back if and only if each survives its line |
| `ChunkedWriter.DataSink.WriteContentChunked` | externals/httplib/httplib.h:4112-4127 | the provider loop calls until the data end, the stream is not writable, a call gives up or a write failed |
| `ChunkedWriter.SendsEncoding` | externals/httplib/httplib.h:4026-4127 | on a stream that does not fail, the bytes sent are the encoding of the writes, however the provider spreads them over calls |
| `ChunkedWriter.SentIsReadBack` | externals/httplib/httplib.h:4026-4127 | what the writer sends, the reader takes for exactly the written payload |
| `ChunkedWriter.AcceptedIffDone` | externals/httplib/httplib.h:4026-4127 | whatever the provider does, in however many calls, and wherever writes break off: the reader accepts what was sent if and only if some done got through, with exactly the non-empty writes before the first done, and otherwise delivers no more than a part of them |
| `ChunkedWriter.SuccessMeansSent` | externals/httplib/httplib.h:4112-4127 | a writer that reports success has sent every write in full |
| `ChunkedWriter.DoneOnGoodStream` | externals/httplib/httplib.h:4062-4106 | on a stream that does not fail, a done gets through if and only if the provider makes one |
| `ChunkedWriter.EmptyWriteLoses` | externals/httplib/httplib.h:4034-4060 | an empty write ends the loop with success before the done, and the reader rejects what was sent |
| `ChunkedTransfer.Transfer` | externals/httplib/httplib.h:3787-4127 | sink, socket, stream buffer and reader together, for every provider, every broken write and every cut of the stream: when a done got through, the payload arrives unless the network fails; when none did, the reader fails with no more than a part of it; a proper transfer leaves the next message untouched |
| `ClientSocket.StepKeeps` | externals/httplib/httplib.h:6772-6869 | every step of every thread keeps the protocol's invariant and meets the asserts on its way |
| `ClientSocket.SocketSafety` | externals/httplib/httplib.h:6704-6734 | in every interleaving of sends, nested sends and stops the asserts of `shutdown_ssl` and `close_socket` hold |
| `ClientSocket.SocketNotTaken` | externals/httplib/httplib.h:7865-7886 | no other thread closes or replaces the socket of a request in flight |
| `ClientSocket.FlagIsPendingStop` | externals/httplib/httplib.h:6782-6788 | along every run the close flag is set if and only if some stop met a request in flight and no send has entered since, or it was set before and no send has entered at all |
| `ClientSocket.ExitCloses` | externals/httplib/httplib.h:6843-6858 | after every run, an exit closes the socket if and only if some stop met a request in flight and no send has entered since, the connection is to be closed or the request failed |
| `ClientSocket.SocketOpenIff` | externals/httplib/httplib.h:6782-6858 | along every run there is a socket if and only if some entry connected and since then no stop found the client idle, no server closed, no exit closed and no entry found the connection dead without making one |
| `ClientSocket.TlsIff` | externals/httplib/httplib.h:6805-6821 | along every run the socket has TLS if and only if the entry that made it set TLS up |
| `ClientSocket.IdleStopCloses` | externals/httplib/httplib.h:7865-7886 | a stop with no request in flight leaves no socket and no TLS until an entry connects |
| `ClientSocket.RetriedOnce` | externals/httplib/httplib.h:6772-6780 | a send that has been retried is not retried again |
| `ClientSocket.StopTakesEffect` | externals/httplib/httplib.h:7865-7886 | a stop that meets a request in flight has the socket closed at the next exit, and it stays closed, if no send enters first |
| `ClientSocket.StopForgotten` | externals/httplib/httplib.h:6782-6788 | from a fresh client, a nested send that enters after such a stop makes the exit keep the socket open |
| `NestedSend.Send` | externals/httplib/httplib.h:6772-6781 | against every server, failed reconnects included, a send ends within the budget of its redirect and authorization counts |
| `NestedSend.Redirect` | externals/httplib/httplib.h:4138-4162 | a followed redirect spends one of the redirects left |
| `NestedSend.Authenticate` | externals/httplib/httplib.h:6922-6953 | a digest retry spends one of the authorization attempts left |
| `NestedSend.SecondTry` | externals/httplib/httplib.h:6772-6780 | an attempt on a connection that the peer could have closed is made good by a second; any other failure stands |
| `NestedSend.OneRedirect` | externals/httplib/httplib.h:6922-6925 | exactly statuses 301 to 399 are followed; which response, request and result the caller finds |
| `NestedSend.OneChallenge` | externals/httplib/httplib.h:6927-6954 | how a challenge is answered, and what the caller finds if that fails |
| `NestedSend.BudgetIsReached` | externals/httplib/httplib.h:6885-6963 | a server that keeps redirecting and challenging reaches that budget |
| `NestedSend.DefaultNesting` | externals/httplib/httplib.h:6885-6963 | from the defaults at most 26 sends are open at once, and 26 are reached |
| `Getopt.StepShape` | externals/getopt/getopt.c:187-476 | one option uses at most two elements, the second only if it is there, and shortens the text of its element |
| `GetoptWords.ShortResult` | externals/getopt/getopt.c:316-472 | a character of a cluster by its declaration: unknown, "c", "c:" or "c::" decide the report, the argument and how many elements are used |
| `GetoptWords.ClusterResult` | externals/getopt/getopt.c:316-472 | a cluster reports its characters up to the first that takes an argument; the next element is used if and only if that is the last character, requires an argument, and there is such an element |
| `GetoptWords.SearchFinds` | externals/getopt/getopt.c:203-227 | the search finds the exact name, or else the first option that the name abbreviates if all of them mean the same, and nothing otherwise |
| `GetoptWords.LongResult` | externals/getopt/getopt.c:188-330 | a long option by what its name stands for: value behind =, next element, none, or an error |
| `GetoptWords.Understood` | externals/getopt/getopt.c:113-476 | arguments that spell out any words are reported as meant, and only the operands remain, in order |
| `GetoptWords.UnderstoodInOrder` | externals/getopt/getopt.c:113-476 | the same in the other orderings, up to where they stop |
| `GetoptRun.CallProgress` | externals/getopt/getopt.c:129-186 | in every ordering, a call permutes the arguments, keeps the cursors in order and makes progress, so calling until the end terminates |
| `GetoptRun.ExchangePermutes` | externals/getopt/getopt.c:72-107 | an exchange permutes the arguments and leaves those behind the cursor alone |
| `GetoptPermute.CallKeeps` | externals/getopt/getopt.c:129-476 | every call in PERMUTE order keeps its place in the reference scan of the arguments |
| `GetoptPermute.PermuteRun` | externals/getopt/getopt.c:129-476 | a whole run in PERMUTE order leaves options, their arguments and `--` first and operands last, reports the same options as the reference scan and stops at the first operand |
| `GetoptPermute.ScanPartitions` | externals/getopt/getopt.c:129-186 | options and operands are each in original order, and together they are the arguments |
| `GetoptPermute.ScanOperands` | externals/getopt/getopt.c:129-186 | without `--`, every operand is a non-option |
| `GetoptOrder.OrderRun` | externals/getopt/getopt.c:129-476 | a whole run in REQUIRE_ORDER or RETURN_IN_ORDER leaves the arguments as they were, reports what one pass over them finds and leaves `optind` where the pass stops |
| `GetoptOrder.PassStops` | externals/getopt/getopt.c:162-184 | the pass stops at the end, behind `--`, or in REQUIRE_ORDER at an operand |
| `GetoptData.SwapBlocks` | externals/getopt/getopt.c:84-103 | the inner loops swap two blocks of equal length and nothing else |
| `GetoptData.ExchangeInPlace` | externals/getopt/getopt.c:72-107 | the in-place loops rotate the two blocks exactly |
| `GetoptData.SearchLoop` | externals/getopt/getopt.c:203-225 | the search of the long options: an exact match, the first abbreviation, and whether it is ambiguous |
| `GetoptData.SkipLoop` | externals/getopt/getopt.c:158-159 | skips exactly the leading operands |
| `GetoptData.Data.GatherOperands` | externals/getopt/getopt.c:152-161 | operands met are moved behind the options, in place |
| `GetoptData.Data.FetchElement` | externals/getopt/getopt.c:146-186 | the next element: the end, an operand or an option, after the exchanges this takes |
| `GetoptData.Data.LongOptionCall` | externals/getopt/getopt.c:187-316 | a long option's code, argument, index, flag or error, and the new cursors |
| `GetoptData.Data.ShortOptionCall` | externals/getopt/getopt.c:317-476 | a short option's code, argument or error, and the new cursors |
| `GetoptData.Data.Getopt` | externals/getopt/getopt.c:129-476 | one call on the persistent data and the argument array is one call of the scanner on values |
| `GetoptMain.NextCode` | externals/getopt/getopt.c:478-488 | a call returns -1 exactly at the end of the run |
| `GetoptMain.ReportIsNotEnd` | externals/getopt/getopt.c:187-476 | no report is -1 unless an option is declared with that value |
| `GetoptMain.FinishRun` | externals/getopt/getopt.c:478-488 | calling until -1 terminates in every ordering and returns the reported codes |
| `GetoptMain.ParseInOrder` | externals/getopt/getopt.c:108-128 | with - or + in front of the option string, or under POSIXLY_CORRECT, the array stays and the codes are those of one pass |
| `GetoptMain.ParsePermuting` | externals/getopt/getopt.c:478-492 | a program that calls until -1 finds its argument array stably partitioned and `optind` at the first operand |
| `CsndChannel.CntRoundTrip` | src/audio_core/csnd.cpp:44-53 | reading a CNT register gives back what was written |
| `CsndChannel.FieldsRoundTrip` | src/audio_core/csnd.h:88-98 | the value of a CNT register has exactly the fields it was made of |
| `CsndChannel.StateRoundTrip` | src/audio_core/csnd.cpp:158-164 | predictor and index survive the ADPCM state register |
| `CsndChannel.StateLayout` | src/audio_core/csnd.cpp:89-95 | where predictor and index lie in the register |
| `CsndChannel.StopKeepsState` | src/audio_core/csnd.cpp:89-95 | the ADPCM state register reads the same just before and just after a stop |
| `CsndChannel.StopStartRestores` | src/audio_core/csnd.cpp:48-61 | stopping and starting a channel resumes the decoder where it was |
| `CsndChannel.FetchInsideBlock` | src/audio_core/csnd.cpp:168-202 | every fetch outside Manual mode and PSG lies inside the block |
| `CsndChannel.ImaDiffIs` | src/audio_core/csnd.cpp:233-243 | an ADPCM nibble moves the predictor by its magnitude plus one half, in quarters of the step, up to what the shifts drop |
| `CsndChannel.StepKeeps` | src/audio_core/csnd.cpp:175-202 | a step keeps the channel's invariant |
| `CsndPlayback.StepsInBlock` | src/audio_core/csnd.cpp:168-202 | until the block ends, every step fetches one sample and changes no register |
| `CsndPlayback.OneShotLength` | src/audio_core/csnd.cpp:175-183 | a OneShot channel fetches exactly the rest of its block; the next step clears Enable and holds if and only if Hold is set |
| `CsndPlayback.StartedLength` | src/audio_core/csnd.cpp:147-159 | a started channel has size, half of size rounded up, or twice size samples ahead of it, by format |
| `CsndPlayback.BlockSamples` | src/audio_core/csnd.cpp:204-259 | the samples fetched are those of the block in order; `CsndSamples` says which bytes make them |
| `CsndSamples.PcmSamples` | src/audio_core/csnd.cpp:208-224 | the bits of sample n of a PCM block are those of its bytes, the low byte first |
| `CsndSamples.AdpcmSamples` | src/audio_core/csnd.cpp:225-253 | sample 2j of a block decodes byte j modulo 16 and sample 2j + 1 byte j divided by 16: down for nibbles from 8 on, by the magnitude's parts of the step, clamped, with the index moved and clamped |
| `CsndSamples.StepsGrow` | src/audio_core/csnd.cpp:23-31 | the step table grows from 7 to 32767 by a tenth at a time |
| `CsndPlayback.LoopSamples` | src/audio_core/csnd.cpp:184-202 | from the end of a block on, a looping channel plays the loop block over and over |
| `CsndPlayback.LoopPeriodic` | src/audio_core/csnd.cpp:168-259 | with registers and memory fixed, a looping channel never stops and its samples have the pass length of the loop block as a period |
| `CsndPlayback.EmptyLoopStops` | src/audio_core/csnd.cpp:193-197 | a looping channel stops at the end of its block if and only if the loop block is empty |
| `CsndTimer.TickKeeps` | src/audio_core/csnd.cpp:284-290 | an output sample keeps the invariant and leaves less than a period on a running channel's counter |
| `CsndTimer.TimerExact` | src/audio_core/csnd.cpp:284-290 | an enabled running channel takes exactly the steps its period allows in the time of the output samples, and keeps the remainder |
| `CsndTimer.LoopingTimer` | src/audio_core/csnd.cpp:284-290 | for a looping channel that holds for ever |
| `CsndTimer.ProductFits` | src/audio_core/csnd.cpp:261-269 | the interpolation product fits 32 bits for all samples if and only if the counter is at most 0x8000 |
| `CsndTimer.FineIff` | src/audio_core/csnd.cpp:261-269 | for every counter of an enabled channel and every period, running or paused: the value is the truncated interpolation and lies between the samples, for all samples, if and only if the counter is at most the period and at most 0x8000 |
| `CsndTimer.RunningFineIff` | src/audio_core/csnd.cpp:261-301 | for every timer: every running channel interpolates so after every output sample if and only if the period is at most 0x8001 |
| `CsndTimer.InterpolationWraps` | src/audio_core/csnd.cpp:261-301 | a run of a fresh channel in which the product leaves 32 bits: it puts out -934 where 5111 is meant |
| `CsndTimer.PausedLeaves` | src/audio_core/csnd.cpp:277-301 | a run of a fresh channel that is paused with its counter past a rewritten period: it puts out 31776 between samples 0 and -0x8000 |
| `CsndMixer.MixFits` | src/audio_core/csnd.cpp:271-302 | every volume product and the sum over 32 channels fit 32 bits |
| `CsndMixer.Sides` | src/audio_core/csnd.cpp:271-307 | left volumes make the first sample of a frame and nothing else, right volumes the second |
| `CsndMixer.MasterScales` | src/audio_core/csnd.cpp:304-305 | the master volume scales the mix in parts of 0x8000, rounded down |
| `CsndMixer.OffOrHeld` | src/audio_core/csnd.cpp:277-301 | a channel that is off adds nothing; one that holds adds its last sample |
| `CsndMixer.ClampIdle` | src/audio_core/csnd.cpp:304-307 | volumes that sum to at most 0x8000 on a side leave nothing to clamp on it |
| `CsndMixer.ClampSharp` | src/audio_core/csnd.cpp:304-307 | that bound is sharp |
| `Csnd.WriteCntKeeps` | src/audio_core/csnd.cpp:48-61 | a CNT write keeps the channel's invariant |
| `Csnd.AdvancedKeeps` | src/audio_core/csnd.cpp:271-309 | any number of output samples keeps every channel's invariant |
| `Csnd.Csnd.constructor` | src/audio_core/csnd.h:138-194 | the hardware starts silent at full master volume |
| `Csnd.Csnd.SetCnt` | src/audio_core/csnd.cpp:48-61 | starts, stops and un-holds the channel as the written bits ask, and keeps the invariant |
| `Csnd.Csnd.GetCnt` | src/audio_core/csnd.cpp:44-46 | the value read has exactly the fields of the register |
| `Csnd.Csnd.SetVolume` | src/audio_core/csnd.cpp:63-107 | a register write sets its field, clamped or masked as the source does it, and keeps the invariant of every channel; the other setters have the same contract for their fields |
| `Csnd.Csnd.GetAdpcmState` | src/audio_core/csnd.cpp:89-95 | while a channel is enabled, starting from the value read would resume its decoder; else it is what was written or saved |
| `Csnd.Csnd.StartChannel` | src/audio_core/csnd.cpp:147-159 | resets the playback state from the registers |
| `Csnd.Csnd.StopChannel` | src/audio_core/csnd.cpp:161-166 | saves the decoder and clears Enable |
| `Csnd.Csnd.FetchSample` | src/audio_core/csnd.cpp:204-259 | reads the next sample of a channel, called only inside the block unless in Manual mode or PSG |
| `Csnd.Csnd.StepChannel` | src/audio_core/csnd.cpp:175-202 | one step in place is one step on values |
| `Csnd.Csnd.TickChannel` | src/audio_core/csnd.cpp:284-290 | the timer loop in place is one output sample's time on values |
| `Csnd.Csnd.RenderFrame` | src/audio_core/csnd.cpp:272-308 | one frame moves every channel on by one sample and is the clamped mix of their outputs, with no 32-bit overflow |
| `Csnd.Csnd.Render` | src/audio_core/csnd.cpp:271-309 | frame by frame, the output is the mix of the channels moved on by that many samples, and the invariant is kept |
| `Adpcm.DecodeFrame` | src/audio_core/codec.cpp:61-73 | one frame's samples are written in order, two for each byte |
| `Adpcm.DecodeADPCM` | src/audio_core/codec.cpp:16-80 | decodes all samples onto both channels, one more for an odd count, never reads outside the bytes they occupy; the output satisfies the filter's recurrence, and the state is left to carry on from |
| `Adpcm.OutputFiltered` | src/audio_core/codec.cpp:28-79 | sample k is the clamped filter of its nibble, scaled by the header of frame k/14, with that header's pair of coefficients on the two samples before, the first newest; nothing wraps where the pair fits |
| `Adpcm.OnlyOutput` | src/audio_core/codec.cpp:28-79 | that recurrence determines the output |
| `Adpcm.SplitDecoding` | src/audio_core/codec.cpp:28-79 | decoding whole frames first and the rest from the carried state is decoding everything at once |
| `Adpcm.InputRange` | src/audio_core/codec.cpp:37-47 | a nibble times its scale stays in the range that the next row speaks of |
| `Adpcm.FilterFits` | src/audio_core/codec.cpp:46-59 | the filter stays in 32 bits for every input and state if and only if the coefficient pair meets two explicit inequalities |
| `Adpcm.SumFits` | src/audio_core/codec.cpp:46-59 | then every partial sum fits and the sample is the clamped exact filter |
| `Adpcm.SmallPairFits` | src/audio_core/codec.cpp:46-59 | pairs whose absolute values sum to at most 49152 meet them |
| `ProfilerEntry.EntryRoundTrip` | externals/microprofile/microprofile.h:845-854 | kind, timer and tick are read back from a packed entry, the latter two modulo their widths |
| `ProfilerEntry.EntryLayout` | externals/microprofile/microprofile.h:830-854 | where kind, timer and tick lie in an entry |
| `ProfilerEntry.TickDifferenceIs` | externals/microprofile/microprofile.h:856-862 | the tick difference is the one nearest to zero among those congruent modulo 2^48 |
| `ProfilerEntry.TickDifferenceExact` | externals/microprofile/microprofile.h:856-862 | it is exact for ticks less than half the range apart |
| `ProfilerReplay.ReplayFrames` | externals/microprofile/microprofile.h:1683-1756 | cutting a log into frames does not change its replay |
| `ProfilerReplay.ExclusiveConserved` | externals/microprofile/microprofile.h:1725-1737 | summed exclusive ticks and the child-tick stack move together at every entry |
| `ProfilerScopes.ExclusiveTime` | externals/microprofile/microprofile.h:1725-1737 | summed exclusive ticks are the ticks on the child-tick stack, and with every scope closed the ticks of the top-level scopes |
| `ProfilerScopes.GroupTime` | externals/microprofile/microprofile.h:1696-1755 | a group's ticks are the total duration of exactly those of its scopes that lie in no other scope of the group |
| `ProfilerScopes.GroupOnLeave` | externals/microprofile/microprofile.h:1736-1746 | in any state, exactly a leave of a group with one scope open adds to the group, and it adds its ticks |
| `ProfilerForest.ForestReplay` | externals/microprofile/microprofile.h:1683-1756 | the replay of any nested scopes adds each timer's inclusive and exclusive ticks and calls, and each group's outermost ticks, as the nesting defines them |
| `ProfilerForest.ExclusiveAddsUp` | externals/microprofile/microprofile.h:1683-1756 | exclusive ticks over all timers are the total ticks of the top-level scopes |
| `ProfilerLog.Accumulate` | externals/microprofile/microprofile.h:1760-1775 | the accumulation loop adds element by element, as the flip uses it |
| `ProfilerLog.FrameAddsUp` | externals/microprofile/microprofile.h:1760-1775 | a frame replayed from zeroed totals and added to the accumulated ones is the frame replayed from those |
| `ProfilerLog.RangeHolds` | externals/microprofile/microprofile.h:1481-1498 | the two ranges hold exactly the entries between two positions while these are in the ring |
| `ProfilerLog.HeldIff` | externals/microprofile/microprofile.h:1387-1402 | among distinct entries, one is still in the ring if and only if it is one of the latest MICROPROFILE_BUFFER_SIZE |
| `ProfilerLog.RangeHoldsIff` | externals/microprofile/microprofile.h:1481-1498 | among distinct entries, the two ranges hold a frame if and only if its first entry is one of those |
| `ProfilerLog.RingPut` | externals/microprofile/microprofile.h:1387-1402 | storing an entry keeps the latest entries of the history in the ring |
| `ProfilerThread.Stacks.EnterScope` | externals/microprofile/microprofile.h:1696-1707 | an enter entry pushes its index and a zero |
| `ProfilerThread.Stacks.LeaveScope` | externals/microprofile/microprofile.h:1718-1752 | a leave entry pops, charges its parent and adds to timer and group totals |
| `ProfilerThread.Stacks.ReplayRange` | externals/microprofile/microprofile.h:1687-1755 | the replay loop over a range of the ring is the replay on values, and its stack holds the ring indices of the open scopes |
| `ProfilerThread.Stacks.ReplayFrame` | externals/microprofile/microprofile.h:1653-1756 | one frame is replayed from whatever the ring holds between two cursors, with its own totals |
| `ProfilerThread.FlipReplays` | externals/microprofile/microprofile.h:1653-1775 | while the frame's entries and the enter entries of the scopes it closes are in the ring, such a replay continues the replay of the whole history |
| `ProfilerThread.FlipConserves` | externals/microprofile/microprofile.h:1725-1775 | whatever a flip replays, accumulated exclusive ticks and the child-tick stack keep their balance |
| `ProfilerThread.Ring.Put` | externals/microprofile/microprofile.h:1387-1402 | an entry is stored unless that would overtake the start of the frame; otherwise overflow is noted |
| `ProfilerThread.Ring.StartFrame` | externals/microprofile/microprofile.h:1559-1616 | a flip records where the frame starts and finds the bounds of the frame to replay in the slots of earlier flips |
| `ProfilerThread.ThreadLog.Put` | externals/microprofile/microprofile.h:1387-1402 | logging keeps the accumulated totals those of the replayed history, and their balance |
| `ProfilerThread.ThreadLog.Flip` | externals/microprofile/microprofile.h:1559-1775 | a flip in any state replays what the ring holds of one more frame and accumulates it, keeping the balance; the totals stay those of the replayed history as long as every flip meets its entries in the ring |
| `ProfilerThread.AgreeAll` | externals/microprofile/microprofile.h:1683-1756 | a replay never looks at the scopes that stay open below it all the while, so their entries may be gone |
| `ProfilerThread.Overrun` | externals/microprofile/microprofile.h:1387-1402 | three frames of which every entry is stored, after which the next flip is to replay a frame whose first entry is gone |
| `ProfilerThread.ThreadLog.ExclusiveAccounted` | externals/microprofile/microprofile.h:1683-1775 | after any puts and flips, even late ones, the accumulated exclusive ticks are those on the live child-tick stack; with no late flip and every processed scope closed, the ticks of the processed top-level scopes |
| `ProfilerThread.ThreadLog.GroupAccounted` | externals/microprofile/microprofile.h:1696-1775 | after any puts and any flips that were not late a group's accumulated ticks are the total duration of exactly those processed scopes of the group that lie in no other scope of the group |

## Left out

- Sockets, polling, name resolution, files, TLS, zlib and brotli: a socket is an arbitrary cut of a byte stream that may fail, a server is an arbitrary responder, and the compressor passes its data through.
- Regular expressions: the Content-Disposition and RFC 5987 patterns are replaced by prefix checks; range headers, the response line and URL parsing are not modelled.
- Header multimaps: trailer fields are kept in the order they arrive, not by name without regard to case.
- Files received in a form: they are kept in the order of their headers; `Server::read_content` collects them into a multimap by name and refuses the 1025th.
- Multipart epilogues other than the serializer's own closing line break.
- getopt: the `W;` and long-only handling, the wide-character twins, error messages and the environment lookup.
- `GetoptData.Data.Getopt`: leaves out option strings with `W;`. On these the code makes `-W` take a long option, and a call need not get on: without long options, a cluster that goes on behind `W` is scanned again from its start (getopt.c:331-437).
- `GetoptPermute.PermuteRun`: leaves out option strings with `W;`, for the same reason.
- `GetoptOrder.OrderRun`: leaves out option strings with `W;`, for the same reason.
- `GetoptData.Data.ShortOptionCall`: leaves out option strings with `W;`.
- `MultipartSplit.LostRun`: is stated for bodies in which the boundary line occurs only at items; with another one inside a content, what comes back need not be a suffix of the items.
- CSND: capture units, the channel and capture mask registers, the busy query, PSG sound (silent in the source) and serialization; memory is a total function that reads zero outside the physical regions, so the one 16-bit read across a region's end is not distinguished.
- `ProfilerThread.ThreadLog.Flip`: says nothing of nesting of MICROPROFILE_STACK_MAX, which the source asserts against. Totals are unbounded integers, of which the source keeps 64 bits.
- Profiler: one thread's log stands for all; metadata counters, frame maxima, pausing, aggregate clearing, GPU timestamps, context switches, dumps and the web server are not modelled.
- `DecodePCM8` and `DecodePCM16`, the drawing code, the audio device plumbing and the scripts.
