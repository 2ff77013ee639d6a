# minide2: a model of the streaming layer and of the algorithms around it

This project models parts of minide2, an IDE whose native backend talks to an Electron frontend, and proves properties
of the model. Each `.dfy` file follows one component:

| file | component |
|---|---|
| `stream_queue.dfy` | the broadcast queue: many listeners share one cache of reference-counted messages |
| `id_provider.dfy` | the allocator of listener ids |
| `stream_parser.dfy`, `json_text.dfy` | the incremental framer that cuts JSON objects out of a growing buffer; JSON texts as sections 2, 4 and 7 of RFC 8259 define them |
| `text_frames.dfy` | length-prefixed text frames, sender and receiver |
| `ws_client.dfy`, `reply_runs.dfy` | the frontend's websocket client, its table of waiting replies, and runs of it |
| `file_transfer.dfy`, `transfer_runs.dfy` | the backend's chunked file writer, and runs of many writers, the channel and the client together |
| `hybrid_sink.dfy` | the upload sink: length, bar, JSON, data |
| `directory_scan.dfy` | the breadth-first directory scan that compacts its own worklist |
| `child_search.dfy`, `file_tree.dfy` | the frontend's sorted file tree and its binary search |
| `command_line.dfy`, `js_text.dfy` | the command line splitter; what JavaScript takes for white space |
| `environment.dfy` | environment inheritance |
| `source_header.dfy` | the way from a source file to its header and back |
| `wrappers.dfy` | results that may be missing, for all of them |

Code that updates fields or loops is a class or a method here, proved equal to a function of the old state; the
properties are then proved about that function. Protocols are step systems: a `Trace` is a list of events, `Run` gives
the state it leads to, `Valid` says that each event was possible when it happened, and theorems speak of every valid
trace. Every interleaving is a trace; in particular `unrefMessage` of the queue is two events, the decrement outside the
lock and the erasure inside it.

## Where the code differs from what it says or seems to intend

The model follows the code. These differences came to light; the lemmas named say exactly when the code does what it
seems to intend:

- The header for a `.cc` file is sought as `.hc`, the source for a `.hh` file as `.ch`, and neither is then recognized.
  The extensions that come back are `.c`, `.cp`, `.cpp`, `.cxx` and `.c++` and their headers, in lower case, and no
  others (`SourceExtensionReturnsIff`, `HeaderExtensionReturnsIff`).
- A request's `headerExtension` is stored as the source extension (worker/routers/workspace.cpp:564), so it never
  applies to headers, and it takes the place of a wished source extension, if there is one (`WishedHeaderIsMisplaced`;
  `WishIsHonouredIff` says which wishes are honoured).
- Toggling a path twice returns it only if no directory below the special directory is special for the partner, and the
  special directory is the one the search from the partner prefers (`ThereAndBackIff`, `HeaderThereAndBackIff`).
- `compileEnvironment` passes a flag named `sensitive` for the parameter `pathsAreCaseInsensitive`, so paths are told
  apart by case on Windows and not on Linux, opposite to the comment in
  backend/include/backend/settings/environment.hpp:37-38. With parents, every path is kept if and only if no two
  different ones are taken for the same (`AllKeptIff`, `CompiledPathKeepsIff`): always on Windows, and on Linux not for
  `/A` and `/a` (`LinuxDropsCaseVariants`).
- A message sent to an id that is not registered, broadcast to nobody, or left in the queue of a listener that is
  removed or inserted again stays in the cache forever (`SentToNobody` for an example). These are exactly the messages
  that no continuation gets out of the cache (`LeakedIffNeverErased`), and a run leaks nothing if and only if it has no
  such step (`TidyIffNothingLeaks`).
- `freeId` trusts its callers. Freeing an id leads to two holders of one id, sooner or later, if and only if somebody
  else holds it or it is beyond the counter (`NeverTwiceIff`), and freeing 0 breaks the count as well
  (`FreeingIsSafeIff`). Freeing one's id a second time is therefore harmless only until somebody else has acquired it
  (`FreedAgainTooLate`).
- Reply ids repeat after 1,000,002 requests. A request that is still waiting then is overwritten and its promise never
  settles (`LostIff`, `LostForever`).
- Binary frames set `repl.data` instead of `repl.date`, so an entry keeps the date of its request (`DatedByItsRequest`),
  a sweep rejects it if and only if it comes more than 30 seconds after the request (`TimesOutIff`, `EverTimedOutIff`),
  and a transfer for which data keeps coming in is rejected all the same (`LivelyTransferTimesOut`). A transfer that is
  fully delivered has resolved if and only if no sweep came too late for it (`ResolvesExactlyOnce`), and any transfer
  can still be fully delivered (`CanBeDelivered`).
- `parseData` and `on_text` take at most one message per event (`TextArrivesAsFrames`, `OnTextTakesOne`). The client
  reports that there is no number in the stream if and only if what has arrived of a good frame ends behind `0x`
  (`PartialFrameWaits`). A frame that is not JSON stays in front of the buffer and blocks it for good
  (`RejectedFrameBlocks`), so everything sent comes out if and only if every payload is accepted
  (`EverythingArrivesIff`).
- A rejected upload goes on: data in later writes is handed over, while what came in the same write as the end of the
  rejected text is lost (`RejectedUpload`).
- Deleting a directory from the file tree leaves `typeSplitIndex` as it was; the tree stays well formed if and only if
  the first file beside the directory sorts behind the remaining directories (`DeletingDirectory`). Where the directory
  was the only child, a directory can be inserted, but then every search in the node fails (`OnlyDirectoryDeleted`).
  Searching the files of a node without files reads past the end (`FileSearchCrashesIff`), so deleting at a path that
  leads nowhere fails if and only if the node where the path ends was not loaded or has directories but no files
  (`DeletingAnything`).
- What is quoted for the splitter comes back if and only if no argument but the last is blank and the last is not empty
  (`RoundTripIff`).

The promise of a transfer resolves with a field that is never set. The bytes of a transfer are, in the model, those that
were handed to `onBinary`.

## Model

| member | source | states |
|---|---|---|
| StreamQueues.ReachableInv | worker/streaming/stream_queue.cpp:6-68 | In every state that any interleaving of broadcasts, sends, insertions, removals, pops, decrements and erasures leads to, each cached message's count is the number of listeners it waits for, plus the times it is held, plus the times it was discarded with a queue, plus one if it was sent to nobody; every handle queued or held points into the cache |
| StreamQueues.NeverFaults | worker/streaming/stream_queue.cpp:6-68 | No possible step pops, decrements or erases a message that has left the cache, and no count goes below zero |
| StreamQueues.CachedExactly | worker/streaming/stream_queue.cpp:20-62 | A message is cached if and only if it is queued, held, between its last decrement and its erasure, or leaked |
| StreamQueues.EraseOnlyUnreferenced | worker/streaming/stream_queue.cpp:55-62 | What is about to be erased is cached, and nobody has it queued or held any more |
| StreamQueues.TidyRunsReclaim | worker/streaming/stream_queue.cpp:20-62 | In runs that lose no reference, the cached messages that are not awaiting their erasure are exactly those queued or held |
| StreamQueues.TidyIffNothingLeaks | worker/streaming/stream_queue.cpp:20-68 | A run leaks nothing if and only if it has no broadcast to nobody, no send to an unknown id and no removal or re-insertion of a listener with a queue |
| StreamQueues.LeakedForever | worker/streaming/stream_queue.cpp:33-68 | A message that lost a reference, or never had one, stays in the cache in every continuation of the run |
| StreamQueues.LeakedIffNeverErased | worker/streaming/stream_queue.cpp:6-68 | A cached message is leaked if and only if it is still cached in every continuation; otherwise there is a continuation, of pops, decrements and its erasure, that gets it out |
| StreamQueues.SentToNobody | worker/streaming/stream_queue.cpp:33-47 | In every run that begins with a send to an unknown id, its message is still in the cache at the end |
| StreamQueues.ErasedOnce | worker/streaming/stream_queue.cpp:55-62 | After its erasure no continuation has the message in the cache again, nor can erase or release it |
| StreamQueues.PerListenerFifo | worker/streaming/stream_queue.cpp:6-47 | For each listener inserted and not removed since, what it popped since its insertion followed by what is in its queue is what was broadcast or sent to it since then, in order |
| StreamQueues.QueueIffRegistered | worker/streaming/stream_queue.cpp:49-68 | In every run, a listener has a queue if and only if the last insertion or removal of its id was an insertion |
| StreamQueues.BroadcastReachesAll | worker/streaming/stream_queue.cpp:20-31 | A broadcast ends up last in the queue of each registered listener, as a handle that is new and has its text |
| StreamQueues.StreamQueue.PopMessage | worker/streaming/stream_queue.cpp:6-12 | Returns the front of the listener's queue and removes it there, and nothing else changes |
| StreamQueues.StreamQueue.ConsumeableCount | worker/streaming/stream_queue.cpp:14-18 | The number of messages waiting for the listener; for one that is not registered it is zero, and the listener is registered by that, as if inserted |
| StreamQueues.StreamQueue.BroadcastMessage | worker/streaming/stream_queue.cpp:20-31 | Puts the message into the cache, counted once for each listener, and its handle at the end of every queue |
| StreamQueues.StreamQueue.SendMessage | worker/streaming/stream_queue.cpp:33-47 | Puts the message into the cache with count one and at the end of one queue; for an unknown id it reports the failure, yet the message stays in the cache |
| StreamQueues.StreamQueue.InsertRetriever | worker/streaming/stream_queue.cpp:49-53 | The listener has an empty queue, whatever it had before |
| StreamQueues.StreamQueue.EraseRetriever | worker/streaming/stream_queue.cpp:64-68 | The listener's queue is gone; the counts of what was in it stay as they are |
| StreamQueues.StreamQueue.DecrementRef | worker/streaming/stream_queue.cpp:57 | The count goes down by one, modulo 2^64, and the result says whether it is zero now |
| StreamQueues.StreamQueue.EraseMessage | worker/streaming/stream_queue.cpp:59-60 | The message leaves the cache |
| StreamQueues.StreamQueue.UnrefMessage | worker/streaming/stream_queue.cpp:55-62 | With nothing in between, the last reference takes the message out of the cache and any other only lowers its count |
| IdProviders.OutstandingAndFree | worker/streaming/id.cpp:9-41 | In every run whose holders free what they hold, no id is held twice, and the ids held and the free ids are disjoint and together are 1 to the counter, which never passes its limit |
| IdProviders.AcquiresSmallestUnused | worker/streaming/id.cpp:9-30 | The next id is the smallest positive one that nobody holds, and there is none if and only if all 2^32 - 1 are held |
| IdProviders.UsedIsOutstanding | worker/streaming/id.cpp:32-35 | The reported number, an unsigned subtraction, is the number of holders and of the ids they hold |
| IdProviders.IncrementIsPeak | worker/streaming/id.cpp:9-41 | The counter is the largest number of ids that ever were held at one time |
| IdProviders.FreeingIsSafeIff | worker/streaming/id.cpp:37-41 | When anybody calls with any id, no id is held twice and the ids held and free still make up 1 to the counter if and only if the id was issued and nobody else holds it |
| IdProviders.NeverTwiceIff | worker/streaming/id.cpp:9-41 | After anybody called freeId with any id, no continuation ever has two holders of one id if and only if the id is not beyond the counter and nobody else holds it |
| IdProviders.FreedAgainTooLate | worker/streaming/id.cpp:9-41 | A run in which an id is freed again after somebody else acquired it, and is then held by two |
| IdProviders.IdProvider.AcquireId | worker/streaming/id.cpp:9-30 | Takes the least free id, or else counts up, or else reports that the ids ran out and changes nothing |
| IdProviders.IdProvider.FreeId | worker/streaming/id.cpp:37-41 | Puts the id among the free ones |
| IdProviders.IdProvider.UsedIdCount | worker/streaming/id.cpp:32-35 | As long as only issued ids are free, the number of ids issued and not free |
| StreamParsers.MemoAlwaysAgrees | backend/src/backend/server/stream/stream_parser.cpp:12-35 | After every interleaving of feeds and pops of any text, the memoised scanner state is that of a scan of the buffer's prefix from the beginning, and no object ends inside that prefix |
| StreamParsers.NothingLostOrInvented | backend/src/backend/server/stream/stream_parser.cpp:4-51 | What was popped followed by the from-scratch split of the buffer is the from-scratch split of everything fed, and the unsplit rests agree |
| StreamParsers.ExaminedAtMostOnce | backend/src/backend/server/stream/stream_parser.cpp:12-46 | Over the whole run, characters looked at plus characters still ahead of the scanner make up the characters fed: no character is looked at twice |
| StreamParsers.DrainingYieldsAll | backend/src/backend/server/stream/stream_parser.cpp:4-51 | Popping often enough completes the output to the from-scratch split of all that was fed |
| StreamParsers.OnTextTakesOne | backend/src/backend/server/frontend_user_session.cpp:114-137 | An event that feeds text and pops once gains exactly one object if another one is complete, and otherwise none, however many are complete |
| StreamParsers.SplitConcat | backend/src/backend/server/stream/stream_parser.cpp:12-46 | Splitting a text in two parts, with the unsplit rest of the first in front of the second, gives the same objects and the same rest as splitting it whole |
| StreamParsers.ScannerCounts | backend/src/backend/server/stream/stream_parser.cpp:12-35 | For any text, JSON or not, the scanner knows the braces outside strings, opening less closing, whether the quotes that are not escaped are odd in number, and whether the text ends with an odd run of backslashes |
| StreamParsers.EndIsFirstClosing | backend/src/backend/server/stream/stream_parser.cpp:12-35 | For any text, the scanner stops at the first brace outside strings that closes the last open one, and nowhere else |
| StreamParsers.StripIs | backend/src/backend/server/stream/stream_parser.cpp:37-43 | Exactly the leading characters that isspace accepts are dropped |
| StreamParsers.PopSplits | backend/src/backend/server/stream/stream_parser.cpp:4-46 | One pop takes the first object of the from-scratch split and leaves a buffer that splits into the others; it takes nothing exactly when there is none |
| StreamParsers.StreamParser.Feed | backend/src/backend/server/stream/stream_parser.cpp:48-51 | Appends to the buffer; the memo stays |
| StreamParsers.StreamParser.FindCompleteObjectEnd | backend/src/backend/server/stream/stream_parser.cpp:12-35 | The loop stops at the first brace that closes an object, seen from the memoised state, or at the end of the buffer, with the state of the whole buffer |
| StreamParsers.StreamParser.ConsumeObject | backend/src/backend/server/stream/stream_parser.cpp:37-46 | Returns the front of the buffer without the whitespace before it, keeps the rest, and forgets the memo |
| StreamParsers.StreamParser.PopMessage | backend/src/backend/server/stream/stream_parser.cpp:4-10 | Returns the first complete object and removes it, or returns nothing and keeps the buffer |
| JsonTexts.StringPasses | backend/src/backend/server/stream/stream_parser.cpp:12-35 | No printed string, whatever quotes, backslashes and braces it holds, changes the scanner's state or ends an object |
| JsonTexts.ValuePasses | backend/src/backend/server/stream/stream_parser.cpp:12-35 | Inside an object, no printed JSON value of any nesting changes the scanner's state or ends the object |
| JsonTexts.ObjectEndsAtItsBrace | backend/src/backend/server/stream/stream_parser.cpp:12-35 | The scanner finds the end of a printed object at its last character and nowhere before |
| JsonTexts.StreamSplits | backend/src/backend/server/stream/stream_parser.cpp:4-51 | A stream of printed objects with whitespace between them splits into exactly those objects |
| JsonTexts.RequestsComeBack | backend/src/backend/server/stream/stream_parser.cpp:4-51 | For every chunking and every interleaving of pops, the framer ends up with exactly the objects printed, in order |
| JsonTexts.RequestsComeInOrder | backend/src/backend/server/stream/stream_parser.cpp:4-51 | At every moment, with any part of the stream still to come, the objects popped are the first of the objects printed |
| TextFrames.HeaderReadsBack | app/src/backend/implementations/ws_impl.js:110-120 | parseInt reads the number that the ten header characters were written for, up to 32 bits |
| TextFrames.HeaderFitsIff | backend/src/backend/server/frontend_user_session.cpp:211-218 | The header has ten characters if and only if the length fits into 32 bits |
| TextFrames.HeaderShape | backend/src/backend/server/frontend_user_session.cpp:211-218 | A header is 0x and eight digits, in small letters |
| TextFrames.FrameShape | backend/src/backend/server/frontend_user_session.cpp:211-218 | A frame is the header for its length, a bar and the payload, directly followed by the next frame |
| TextFrames.ParseIntReads | app/src/backend/implementations/ws_impl.js:112 | Of any text of white space, sign, digits with or without 0x in front, and anything else behind, parseInt reads exactly the number |
| TextFrames.NumberReads | app/src/backend/implementations/ws_impl.js:112 | Without a digit behind the sign, or behind 0x, there is no number |
| TextFrames.ValueOfThree | app/src/backend/implementations/ws_impl.js:112 | The witness: the first digit counts most, in decimal and in hexadecimal |
| TextFrames.WholeFrameIsCut | app/src/backend/implementations/ws_impl.js:110-144 | With a whole frame in front of the buffer, one call cuts off exactly its payload and leaves exactly what follows if the payload is accepted, and otherwise leaves everything |
| TextFrames.PartialFrameWaits | app/src/backend/implementations/ws_impl.js:110-144 | With any proper part of a frame in the buffer, even part of its header, nothing is cut off; it is reported as no number if and only if it is empty or `0x` |
| TextFrames.FramesRoundTrip | app/src/backend/implementations/ws_impl.js:110-144 | For every list of payloads, JSON or not, and every chunking of their frames, what was delivered plus what further calls would extract is an initial part of the payloads before the first rejected one, and all of those once everything has arrived |
| TextFrames.EverythingArrivesIff | app/src/backend/implementations/ws_impl.js:110-144 | What was delivered plus what further calls would extract is everything that was sent if and only if every payload is accepted |
| TextFrames.RejectedFrameBlocks | app/src/backend/implementations/ws_impl.js:110-144 | With a whole rejected frame in front of the buffer, no later text, in whatever chunks, leads to a delivery: it all stays in the buffer behind that frame |
| TextFrames.AcceptedIsLongest | app/src/backend/implementations/ws_impl.js:110-144 | The payloads before the first rejected one are the longest accepted initial part, and all of them exactly if each is accepted |
| WebSocketClients.TextArrivesAsFrames | app/src/backend/implementations/ws_impl.js:110-144 | The client with its reply table and hooks cuts its buffer as the plain receiver does, and handles each payload it cuts off, once: null is reported, anything else dispatched; without one nothing happens, but for a complaint exactly if there is no number or the payload is rejected |
| WebSocketClients.WebSocketClient.WriteMessage | app/src/backend/implementations/ws_impl.js:70-92 | On an open socket the request is entered under the current reply id with the time of the call, and the id moves on with wrap-around; on a closed one nothing changes |
| WebSocketClients.WebSocketClient.Sweep | app/src/backend/implementations/ws_impl.js:32-43 | Exactly the entries older than the timeout are settled as timed out and removed, each once |
| WebSocketClients.WebSocketClient.OnText | app/src/backend/implementations/ws_impl.js:110-195 | Appends the chunk, complains or waits if no message can be cut off, and handles exactly one if it can, where null is cut off and then complained about; an empty event changes nothing |
| WebSocketClients.WebSocketClient.Dispatch | app/src/backend/implementations/ws_impl.js:121-138 | A message with a waiting reference settles that entry, and any other calls the hooks of its event in order, or else onMessage |
| WebSocketClients.WebSocketClient.OnBinary | app/src/backend/implementations/ws_impl.js:146-190 | A frame with more than a header hands its bytes to the waiting entry, a bare header completes the entry, and a frame with an unknown reference changes nothing |
| ReplyRuns.TableAlwaysOk | app/src/backend/implementations/ws_impl.js:70-92 | In every run, every entry sits under the id that belongs to its request, and is the latest request with that id |
| ReplyRuns.RefsDistinct | app/src/backend/implementations/ws_impl.js:77-79 | Among 1,000,002 requests in a row no two share an id |
| ReplyRuns.SettledAtMostOnce | app/src/backend/implementations/ws_impl.js:32-43 | Each promise settles at most once, and while at most 1,000,001 further requests were issued, it is either waiting or was settled exactly once |
| ReplyRuns.FrameFindsItsRequestIff | app/src/backend/implementations/ws_impl.js:110-190 | An entry found under a request's id is that request's own if and only if at most 1,000,001 requests were issued after it |
| ReplyRuns.SettledOnlyByItsOwn | app/src/backend/implementations/ws_impl.js:110-190 | If frames arrive in time, a step settles a promise only if the step is its own reply, its own completion, or a sweep more than 30 seconds after its own request |
| ReplyRuns.DatedByItsRequest | app/src/backend/implementations/ws_impl.js:70-92 | In every run, a waiting entry has the date of its request, whatever frames came in for it |
| ReplyRuns.TimesOutIff | app/src/backend/implementations/ws_impl.js:32-43 | A sweep rejects a waiting promise as timed out if and only if it comes more than 30 seconds after the request, and otherwise leaves it waiting |
| ReplyRuns.EverTimedOutIff | app/src/backend/implementations/ws_impl.js:32-43 | In every run, a promise was ever rejected by timeout if and only if some sweep found it waiting more than 30 seconds after its request |
| ReplyRuns.OutcomeIff | app/src/backend/implementations/ws_impl.js:32-190 | In every run, a promise was ever settled in a given way if and only if an event of that kind found it waiting: a reply without error resolves it, one with an error rejects it, a bare header completes it, a late sweep times it out |
| ReplyRuns.AnswerOnlySettles | app/src/backend/implementations/ws_impl.js:121-190 | The reply to a waiting request, and a bare header for it, settle it and remove its entry, and do nothing else; a frame with data only hands over the data |
| ReplyRuns.UnansweredGoesToHooks | app/src/backend/implementations/ws_impl.js:128-138 | A message that answers no waiting request calls every hook of its event once, in order, or else onMessage, and leaves the table alone |
| ReplyRuns.SweepReports | app/src/backend/implementations/ws_impl.js:32-43 | A sweep logs a complaint and the rejection for each expired request, in turn, and removes exactly their entries |
| ReplyRuns.StrayFrameIsIgnored | app/src/backend/implementations/ws_impl.js:172-190 | A binary frame without a readable reference, or with one that nothing waits under, changes nothing |
| ReplyRuns.LivelyTransferTimesOut | app/src/backend/implementations/ws_impl.js:172-190 | However many pieces of data came in for a transfer, a sweep just after the timeout rejects it |
| ReplyRuns.LostIff | app/src/backend/implementations/ws_impl.js:70-92 | When the ids come round, the entry in the way is the old request's own, and it is there if and only if that request was never settled |
| ReplyRuns.LostForever | app/src/backend/implementations/ws_impl.js:70-92 | A promise whose entry is gone is never settled any more, in any continuation |
| FileSenders.Session.WriteBinary | backend/src/backend/server/frontend_user_session.cpp:226-241 | The frame sent is the ten-character header followed by exactly the first `amount` characters of the data |
| FileSenders.BinaryFrameShape | backend/src/backend/server/frontend_user_session.cpp:226-241 | For every 32-bit reference, also a negative one, the frame has ten characters of header that parseInt reads back as its 32-bit pattern, then the data, cut at the amount |
| FileSenders.FileWriter.Read | backend/src/backend/server/writer.cpp:16-17 | The front of the reused buffer becomes the next characters of the file, as many as are left and fit, and the position moves on by as many |
| FileSenders.FileWriter.Write | backend/src/backend/server/writer.cpp:12-27 | One frame with the next characters of the file goes out, none of the stale buffer; with the session gone, nothing goes out |
| FileSenders.FileWriter.OnComplete | backend/src/backend/server/writer.cpp:18-25 | After a full buffer the next write follows; after a partial one a bare header does, and then no more |
| FileSenders.CompletionSendsNext | backend/src/backend/server/writer.cpp:18-25 | Each completion sends the next of the payloads still to come, and after the last one there is none |
| FileSenders.PayloadShape | backend/src/backend/server/writer.cpp:12-27 | A file of n characters takes n / 4096 + 2 frames: full ones, a partial one, a bare header; the partial one is bare as well exactly when 4096 divides n |
| FileSenders.PayloadsCarryFile | backend/src/backend/server/writer.cpp:12-27 | The payloads before the first bare header, whichever it is, join to the file |
| TransferRuns.WriterSendsItsFile | backend/src/backend/server/writer.cpp:12-27 | Among any number of interleaved transfers, what each writer sent followed by what it still has to send is its file's payloads, so it stops after n / 4096 + 2 frames |
| TransferRuns.TransferAlwaysOk | app/src/backend/implementations/ws_impl.js:146-190 | In every run, while a transfer waits, the bytes its receiver collected followed by what is in flight and what is still to be sent make up its file's payloads |
| TransferRuns.SameClient | app/src/backend/implementations/ws_impl.js:110-190 | Every run of senders, channel and client is, seen from the client, a valid run of the client alone |
| TransferRuns.ResolvesWithTheFile | app/src/backend/implementations/ws_impl.js:146-190 | In every run, a transfer's promise settles at most once, and if it resolves, the bytes collected up to that moment are exactly its file, whatever its size and whatever else is under way |
| TransferRuns.ResolvesExactlyOnce | app/src/backend/implementations/ws_impl.js:146-190 | Once everything owed has been delivered, and ever after, the promise has settled exactly once, though a file whose size 4096 divides is ended twice: resolved if and only if no sweep came too late for it, and rejected otherwise |
| TransferRuns.CanBeDelivered | backend/src/backend/server/writer.cpp:12-27 | From every state of every run, some continuation delivers the transfer fully, with its promise resolved if and only if no sweep came too late before |
| HybridSinks.StollReadsHeader | worker/streaming/streamer_base.hpp:50-60 | std::stoll in base 16 reads the number that the ten-character header was written for |
| HybridSinks.StollReads | worker/hybrid_read_sink.cpp:56 | Of any text of white space, sign, hexadecimal digits with or without 0x in front, and anything else behind, std::stoll reads exactly the number |
| HybridSinks.WriteMoves | worker/hybrid_read_sink.cpp:24-105 | Wherever in a well-formed upload the sink stands, one more chunk of any length takes it to where the text that has arrived then says it stands |
| HybridSinks.UploadArrives | worker/hybrid_read_sink.cpp:24-105 | For every well-formed upload and every division into writes, the JSON callback is called once, with exactly the JSON, before any data callback, and the data callbacks join to exactly the data |
| HybridSinks.WrongSeparatorFails | worker/hybrid_read_sink.cpp:38-82 | For every division into writes of a text with a readable length and no bar behind it, the sink fails at that character: one more failure callback than the length itself causes, no JSON and no data, whatever follows |
| HybridSinks.RejectedUpload | worker/hybrid_read_sink.cpp:24-105 | For every division into writes, if the text in the place of the JSON is rejected, there is one failure callback at its last character and never one for JSON; later writes are handed over one by one, and what came in the same write behind the rejected text is not |
| HybridSinks.UnreadableLength | worker/hybrid_read_sink.cpp:53-60 | A length that cannot be read makes the write that completes its ten characters throw, before any callback |
| HybridSinks.JsonDataHybridSink.Advance | worker/hybrid_read_sink.cpp:38-82 | Takes the one enabled transition with the target's action and says so, or changes nothing |
| HybridSinks.JsonDataHybridSink.Write | worker/hybrid_read_sink.cpp:85-105 | Outside the data phase the chunk is appended and the automaton runs until it stands still; in it the chunk goes to the callback; the chunk is always taken whole |
| DirectoryScans.DirectoryContent.Scan | backend/src/backend/filesystem/directory_contents.cpp:18-66 | For every tree and every compaction threshold, the recursive scan builds the object graph that plain recursion describes and traverses each directory once; it fails exactly if the path leads to no directory; the flat scan lists one directory |
| DirectoryScans.DirectoryContent.ScanRecursive | backend/src/backend/filesystem/directory_contents.cpp:18-57 | The worklist with compaction ends with the same tree as plain recursion, and the directories traversed are exactly those below the root, each once |
| DirectoryScans.DirectoryContent.ScanFlat | backend/src/backend/filesystem/directory_contents.cpp:58-65 | The files, and the directories by relative path and without contents |
| DirectoryScans.DirectoryContent.Traverse | backend/src/backend/filesystem/directory_contents.cpp:24-41 | One directory's files and a new object for each of its directories, in the order of the iteration, and its path made relative unless it is the top |
| DirectoryScans.DirectoryContent.AddAll | backend/src/backend/filesystem/directory_contents.cpp:25-36 | The iteration over one directory lists its files and makes distinct new objects for its directories, in order |
| DirectoryScans.DirectoryContent.WorkOff | backend/src/backend/filesystem/directory_contents.cpp:43-57 | The loop over the worklist, for any threshold, ends with everything queued traversed |
| DirectoryScans.DirectoryContent.Queue | backend/src/backend/filesystem/directory_contents.cpp:43-55 | Appending, dropping the finished front and moving on keeps the worklist a tail of everything ever queued, with the same number left to do |
| DirectoryScans.FinishedScanning | backend/src/backend/filesystem/directory_contents.cpp:43-57 | When the worklist is done, the top object mirrors the plain recursion, and the visits are each directory's path exactly once |
| DirectoryScans.MirrorsPlain | backend/src/backend/filesystem/directory_contents.cpp:18-57 | Every object in the finished graph mirrors the plain recursion from its own place |
| DirectoryScans.EachDirectoryOnce | backend/src/backend/filesystem/directory_contents.cpp:18-57 | A path is among those to visit exactly once if it leads to a directory at or below the root, and otherwise not at all |
| DirectoryScans.RelativeBelow | backend/src/backend/filesystem/directory_contents.cpp:37-38 | The path stored for a directory below the root is the part below the root |
| DirectoryScans.PlainIsComplete | backend/src/backend/filesystem/directory_contents.cpp:18-57 | Walking down the tree of a recursive scan along any names leads somewhere if and only if there is such a directory, and then to its path below the root, exactly its files, and one child for each of its directories |
| DirectoryScans.ListingParts | backend/src/backend/filesystem/directory_contents.cpp:25-36 | Files are the regular files and children the directories, in the order of the iteration, and other entries are passed over |
| ChildSearch.SearchFinds | app/src/reducers/helpers/file_tree_searcher.js:5-97 | In a sorted segment, a match is reported if and only if the title is there, with its index, and otherwise the index is the only one where inserting keeps the segment sorted |
| ChildSearch.FileSearchCrashesIff | app/src/reducers/helpers/file_tree_searcher.js:5-97 | A search for a file fails if and only if the node has children and none of them is a file; a search for a directory does not fail while the split index is one of the list |
| ChildSearch.BinaryChildSearch | app/src/reducers/helpers/file_tree_searcher.js:5-97 | The loop ends and gives the result of the bisection that `SearchFinds` describes |
| FileTrees.SortedAscends | app/src/reducers/workspace.js:106-111 | The sorted names ascend strictly and are the same names |
| FileTrees.ChildrenListed | app/src/reducers/workspace.js:133-148 | The new children are the directories, sorted, then the files, sorted, with typeSplitIndex between them |
| FileTrees.SubtreeStaysWellFormed | app/src/reducers/workspace.js:99-179 | After an update both segments of every loaded node are sorted and its typeSplitIndex is their boundary, all the way down |
| FileTrees.OriginIsSet | app/src/reducers/workspace.js:99-179 | Looking up the origin after the update gives a node that lists exactly the branch's directories, then its files, each sorted |
| FileTrees.OtherPathsKept | app/src/reducers/workspace.js:99-179 | A path that is neither on the way to the origin nor at or below it resolves to the very node it did before |
| FileTrees.AncestorsKept | app/src/reducers/workspace.js:99-179 | A node on the way to the origin keeps all of its own fields but the list and its split index, and all its other children; only the parent may gain the one missing entry |
| FileTrees.ChildAfterSet | app/src/reducers/workspace.js:99-179 | One level down, every child other than the next on the way is as before, and that one holds the update, in a new node if it was missing |
| FileTrees.SetSucceedsIff | app/src/reducers/workspace.js:99-179 | The update succeeds if and only if the origin's parent is in the tree and loaded |
| FileTrees.SetFileTreeBranch | app/src/reducers/workspace.js:99-179 | The descending loop with insertion ends with the tree that setting the branch level by level describes, and fails where that does |
| FileTrees.BranchIsSet | app/src/reducers/workspace.js:99-179 | For every origin, after a successful update the tree is well formed and lists the branch at the origin; an origin of one name makes a new root with that name and key |
| FileTrees.BranchIsSetIff | app/src/reducers/workspace.js:99-179 | The update succeeds for an origin of one name, and otherwise if and only if the origin's parent is in the tree and loaded |
| FileTrees.BranchKeepsTheRest | app/src/reducers/workspace.js:99-179 | Below the root, every path apart from the origin's resolves as before, and the nodes on the way keep what is their own |
| FileTrees.OriginKeepsItself | app/src/reducers/workspace.js:133-167 | The node at the origin keeps what is its own and only gets new children, or is the inserted one if it was missing |
| FileTrees.ListedNodes | app/src/reducers/workspace.js:133-148 | Each listed node has the origin, a slash and its title as its key, is not loaded, is no leaf exactly if it is a directory, and is dimmed exactly if it is a file whose name starts with a dot |
| FileTrees.InsertedNode | app/src/reducers/workspace.js:117-131 | An inserted directory has as its key a slash and the names above it without slashes between them, and is neither loaded nor marked as a directory |
| FileTrees.DeleteWorkspaceElement | app/src/reducers/workspace.js:180-187 | The loop that finds the node, and the splice in its parent, end with the tree that deleting level by level describes |
| FileTrees.FindStepIsChild | app/src/reducers/workspace.js:18-44 | In a well-formed node, a turn of the loop goes on to the child of that name, a directory before a file, if there is one, and otherwise stops |
| FileTrees.DeletingFile | app/src/reducers/workspace.js:180-187 | Deleting a file keeps the tree well formed, makes the file's path lead nowhere, and every path that is neither on the way to it nor below it resolves as before |
| FileTrees.DeletingDirectoryIff | app/src/reducers/workspace.js:180-187 | Deleting a directory keeps the node that holds it well formed if and only if there is a file after the directories and the first one sorts behind all remaining directories |
| FileTrees.DeletingDirectory | app/src/reducers/workspace.js:180-187 | Deleting a directory anywhere in the tree succeeds, and leaves the whole tree well formed if and only if that holds in the directory that held it |
| FileTrees.DeletingAnything | app/src/reducers/workspace.js:18-44 | Deleting at a path that leads somewhere succeeds; at one that leads nowhere, it leaves the tree as it was if the node where the path ends is loaded and has a file or no children, and otherwise fails |
| FileTrees.DeletingBelowRoot | app/src/reducers/workspace.js:180-187 | What deletion does to the whole tree at any path below the root, for a file, a directory and nothing |
| FileTrees.DeletingRoot | app/src/reducers/workspace.js:180-187 | Deleting the root's own path drops its last child, if it has one, and fails if the root was never loaded |
| FileTrees.OnlyDirectoryDeleted | app/src/reducers/workspace.js:99-187 | After the only child, a directory, was deleted, the next branch set there inserts its directory, and from then on every search in the node fails |
| CommandLines.SplitCommandLine | app/src/util/command_line_splitter.js:1-84 | The loop, with its branch for the last accumulator, gives the command and arguments that feeding the characters one by one describes |
| CommandLines.TypedWords | app/src/util/command_line_splitter.js:1-84 | Of words without quotes, backslashes and separators, with spaces, tabs and newlines between them and around, the parts are exactly the words; the first is the command, the others the arguments, and without words the command is empty |
| CommandLines.SeparatorSplits | app/src/util/command_line_splitter.js:34-56 | Anywhere in a text, a separator that is neither quoted nor escaped ends an argument, which is dropped if blank, and what comes behind is split as if it stood alone |
| CommandLines.BackslashIsTaken | app/src/util/command_line_splitter.js:12-63 | Anywhere in a text, a backslash takes the meaning of the quote or backslash behind it, and outside quotes of a separator; before any other character it vanishes |
| CommandLines.QuotedSeparator | app/src/util/command_line_splitter.js:38-42 | Anywhere in quotes, a separator is taken as it is, and a backslash in front of it still waits behind it |
| CommandLines.QuoteToggles | app/src/util/command_line_splitter.js:23-33 | Anywhere in a text, a quote that is not escaped opens or closes and leaves no trace |
| CommandLines.BackslashAtTheEnd | app/src/util/command_line_splitter.js:66-69 | A backslash at the end that is not escaped stands for itself |
| JsTexts.IsSpaceIff | app/src/util/command_line_splitter.js:51 | The white space of a blank argument is that of ECMAScript, by code points |
| CommandLines.FeedQuoted | app/src/util/command_line_splitter.js:1-84 | Outside quotes, a quoted argument adds exactly itself to the accumulator, whatever it contains, and changes nothing else |
| CommandLines.SplitAfterJoin | app/src/util/command_line_splitter.js:1-84 | For every list of arguments, splitting the quoted and joined text gives the arguments that survive: the last unless it is empty and the others unless they are blank |
| CommandLines.RoundTripIff | app/src/util/command_line_splitter.js:1-84 | The splitter undoes the quoter if and only if every argument but the last has a character that is not whitespace and the last is not empty |
| Environments.CompilationClosedForm | backend/src/backend/public_settings.cpp:62-100 | Each variable other than PATH has the value of its first definer among the environment and then its parents in the order of their keys; PATH joins the sorted union of all path lists, with parents, or the environment's own list as it is, without, and wins over any variable of that name; the outcome is undefined if and only if there is no path at all |
| Environments.CompilationFailsIff | backend/src/backend/public_settings.cpp:62-86 | The environment is reported missing if and only if it is not defined, and a parent if and only if it is the first that is not |
| Environments.TwoEntries | backend/src/backend/public_settings.cpp:95-99 | The witness: two entries are joined in their order by a colon on Linux and by a semicolon on Windows |
| Environments.InheritedVariables | backend/src/backend/public_settings.cpp:62-93 | After the loop a variable is defined if and only if the environment or a parent defines it, with the value of the first that does |
| Environments.InheritedPath | backend/src/backend/public_settings.cpp:62-93 | After the loop over at least one parent the path is the ordered set of all the lists at once; without parents it is untouched |
| Environments.BuildsSet | backend/src/backend/settings/environment.cpp:51-75 | Inserting a list into a std::set with the comparator leaves it strictly ascending, and its members are exactly the first of each class of names the comparator does not tell apart |
| Environments.LessIff | backend/src/backend/settings/environment.cpp:51-75 | The comparison is by code points: smaller at the first difference, or an initial part |
| Environments.SameIff | backend/src/backend/settings/environment.cpp:51-75 | Without regard to case, two paths are the same if and only if they have the same letters in either case and the same characters otherwise; with regard to it, if they are equal |
| Environments.LettersBeforeUnderscore | backend/src/backend/settings/environment.cpp:51-75 | Without regard to case, letters sort where the capital ones do |
| Environments.MergeOfMerged | backend/src/backend/settings/environment.cpp:51-75 | Merging into a list already merged is merging everything at once |
| Environments.PathSplitsIff | backend/src/backend/settings/environment.cpp:34-41 | Splitting the joined PATH recovers a list that is not empty if and only if no entry contains the separator; otherwise there are more parts |
| Environments.AllKeptIff | backend/src/backend/settings/environment.cpp:51-75 | Merging keeps every entry of the lists if and only if the comparator tells all different entries apart |
| Environments.CompiledPathKeepsIff | backend/src/backend/public_settings.cpp:62-100 | Every path of the environment and its parents stands in the compiled PATH if and only if there are no parents or the platform's comparator tells all different paths apart, which it always does on Windows |
| Environments.LinuxDropsCaseVariants | backend/src/backend/public_settings.cpp:85-93 | The witness: on Linux /A and /a become one path, and on Windows they stay two |
| Environments.CompileEnvironment | backend/src/backend/public_settings.cpp:62-100 | The loop over the parents gives the compilation of the closed form, or the first environment or parent that is not defined |
| Environments.Merge | backend/src/backend/settings/environment.cpp:51-75 | Variables of the other environment win, and the paths are united |
| Environments.MergePaths | backend/src/backend/settings/environment.cpp:60-73 | The loop of insertions gives the ordered set of both lists, the left one first |
| Environments.MergePath | backend/src/backend/settings/environment.cpp:34-41 | The entries with one separator between each two; undefined for the empty list |
| SourceHeaders.SourceExtensionReturnsIff | worker/routers/workspace.cpp:569-605 | The header extension sought for a source file leads back to the source's extension if and only if that is one of five, in lower case |
| SourceHeaders.HeaderExtensionReturnsIff | worker/routers/workspace.cpp:569-627 | The source extension sought for a header leads back to the header's extension if and only if that is one of five, in lower case |
| SourceHeaders.HeaderOf | worker/routers/workspace.cpp:576-605 | The header extension sought for each of the twelve source extensions, all written out |
| SourceHeaders.SourceOf | worker/routers/workspace.cpp:606-627 | The source extension sought for each of the eight header extensions, all written out |
| SourceHeaders.RecognizedIff | worker/routers/workspace.cpp:569-632 | Exactly those twenty extensions are recognized, whatever is wished, and the twelve as source files |
| SourceHeaders.CaseIsIgnored | worker/routers/workspace.cpp:572-574 | Extensions that differ only in the case of letters are treated alike |
| SourceHeaders.NoExtensionIff | worker/routers/workspace.cpp:569-570 | A name has no extension if and only if it has no dot behind its first character or is ".." |
| SourceHeaders.WishedHeaderIsMisplaced | worker/routers/workspace.cpp:559-564 | Whatever source extension is wished besides, a wished header extension changes nothing for a source file and becomes the extension of the source sought for a header |
| SourceHeaders.WishIsHonouredIff | worker/routers/workspace.cpp:559-627 | A wished header extension is honoured for a source file if and only if it is the one sought anyway, and a wished source extension for a header if and only if no header extension is wished or the search comes to the same |
| SourceHeaders.Reduce | worker/routers/workspace.cpp:698-724 | The loop finds a special directory if and only if the path has one, and cuts the path behind the last of them |
| SourceHeaders.ToggleSourceHeader | worker/routers/workspace.cpp:689-769 | Gives the partner beside the file, and the one in the sibling directory if the path has a special directory |
| SourceHeaders.ToggledIs | worker/routers/workspace.cpp:695-769 | With a directory called source, sources or src (include or headers, for a header) on the way, of which the deepest counts, the partner stands in the first of include, headers (source, src, sources) that exists beside it, or else under the first name, below the same names without "." |
| SourceHeaders.NothingToggled | worker/routers/workspace.cpp:695-769 | Without such a directory there is only the partner beside the file, and the result says so |
| SourceHeaders.WithoutDotsIs | worker/routers/workspace.cpp:730 | A "." anywhere in the names makes no difference, and nothing else is dropped |
| SourceHeaders.ThereAndBackIff | worker/routers/workspace.cpp:689-769 | Going from a source file to its header and back gives the same file, up to "." in the path, if and only if no directory below the source directory is named include or headers and the source directory is the one that the search from a header prefers |
| SourceHeaders.HeaderThereAndBackIff | worker/routers/workspace.cpp:689-769 | Going from a header to its source file and back gives the same file, up to "." in the path, if and only if no directory below the include directory is named source, sources or src and the include directory is the one that the search from a source file prefers |
| SourceHeaders.PathReturnsIff | worker/routers/workspace.cpp:689-769 | The same for every file name, from either side, and any pair of extensions that restores the name |
| SourceHeaders.SamePlaceReturns | worker/routers/workspace.cpp:761 | The partner beside the file leads back to the file itself, from either side, in every file system |

## Left out

- Sockets, HTTP routing, attender, brotli, the V8 and Lua bindings, process spawning and the debugger: calls whose
  behaviour the repository does not show.
- The user interface, the other reducers, Dispatcher, session storage, DirectoryCache, log rotation: mostly one-step
  updates.
- StreamQueues.StreamQueue.PopMessage: requires a registered listener with a message to consume; that is the queue's protocol, and popping from an empty deque has no defined result.
- Message cache: a handle is the number of the emplacement; the order of the std::list is never observed. Messages are texts. Exceptions for lack of memory are not modelled.
- IdProviders.UsedIsOutstanding: in the runs, holders free what they hold.
- IdProviders: the counter starts at 0, because it is value-initialised.
- StreamParsers.StreamParser.FindCompleteObjectEnd: the counter of braces is an unbounded integer.
- StreamParsers.StreamParser.PopMessage: gives the raw text; JSON parsing as such, and what happens to a text that it rejects, is left to the caller. Whitespace before an object is removed, as the code does.
- TextFrames.FramesRoundTrip: payloads are ASCII, so that lengths in bytes and in JavaScript characters agree. JSON.parse is an arbitrary predicate or decoder.
- WebSocketClients: registering and removing hooks, authentication, connecting and closing. Exceptions in callbacks. The promise is an entry in a log of effects. The order in which the timer visits the table is any. A text that only leads to a complaint is no event of the runs.
- TransferRuns: the websocket keeps the order of frames. The session of a writer lives on, though `FileWriter.Write` has both cases.
- TransferRuns.ResolvesWithTheFile: a request does not reuse the id of a transfer that is still under way, and text replies answer requests that are not transfers, in time; sessions that break this are outside the protocol.
- HybridSinks.JsonDataHybridSink.Advance: `advance` of the automaton library is not part of the repository; it is taken to follow one enabled transition, run the target's action and report whether it moved. After an exception of std::stoll nothing more is said. Exceptions in callbacks.
- DirectoryScans: the file system is a finite tree that does not change, whose directories have distinct names, without symbolic links; paths are lists of names and relative paths are lexical. `to_json` and `origin` are left out.
- DirectoryScans.DirectoryContent.Scan: requires an object that was constructed for a path and not scanned yet, as all of the callers do.
- ChildSearch: localeCompare is any total order whose equality is equality of strings, where a lemma needs that.
- FileTrees: the reducer clones the tree and changes the clone in place. The model works on values and rebuilds the way that was gone, so aliasing inside the clone is not captured. The origin is a list of names. Hovered and active styles are left out.
- FileTrees.OriginIsSet: the names of a branch are distinct, as those of a directory are.
- CommandLines: the quoter is not in the repository; it is the one the splitter's escapes call for.
- Environments: loading and storing. The parents are listed in the order of their keys. std::toupper is that of ASCII.
- Environments.MergePath: `pop_back` on an empty string has no defined result; the model reports it as an outcome of its own.
- SourceHeaders: paths without ".." and without symbolic links, so that weakly_canonical is lexical; which directories exist is a parameter. The JSON reply and the jail that keeps paths inside the workspace are left out.
- SourceHeaders.ThereAndBackIff: is about files below a special directory; without a special directory there is only the partner beside the file.
