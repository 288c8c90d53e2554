# AimRT: machine-checked models of its concurrent and algorithmic core

This project models the parts of the AimRT runtime that hold their own logic, and proves what they
promise. `dafny verify dfyconfig.toml` checks everything. The modules follow the program:

| module | what it models |
|---|---|
| `LatchProtocol`, `DynamicLatch` | the latch that packs a closed flag and a count into one atomic word; the protocol as interleaved steps, the class on the packed word |
| `BlockQueue` | the blocking queue under a mutex and a condition variable |
| `RecordAction` | the signal-mode recorder: two cache generations, binary search, pre-trigger flush |
| `Schema` | the two breadth-first schema builders of the recorder |
| `StrFind`, `ReplaceString`, `ListSearch`, `Utf8`, `Url` | in-place replacement, searching a separated list, truncating UTF-8, percent-encoding and the MQTT topics |
| `Wrappers`, `Seqs` | outcomes and facts about sequences that the other modules share |
| `Buffer`, `Packets` | little-endian cursors over a byte buffer; the packet of the MQTT and iceoryx channels |
| `IceoryxLoans`, `Iceoryx` | loans of shared memory as interleaved critical sections; filling, growing, retrying, publishing |
| `TcpFrames`, `TcpSession`, `IdleWatchdog` | the TCP frame and the receive loop; the sender coroutine with timer, heartbeat and shutdown; the idle timer |
| `RpcPackets`, `MqttRpc` | the RPC packets; calls, records, timeouts and callbacks over an unreliable network |
| `PlaybackReader`, `Playback` | taking a batch from a bag; the playback state machine with its two chains |
| `HttpPool` | the session pool of the HTTP client |
| `JsonConvert` | ROS messages to JSON and back, driven by recursive member descriptors |

Code that changes state step by step is a class or a method here too. Where threads or coroutines
interleave, a datatype holds the whole state, `Next` is one atomic step, an invariant is shown for every
step and so for every run, and the class methods are shown to take exactly those steps.

## What does not hold, and when it does

Where the code misses what one would expect of it, the model keeps the code's behaviour, and a lemma gives
the exact condition.

- A latch whose count reaches 2^63 closes itself (`DynamicLatch.PlusCounts`).
- The return of CloseAndWait does not make it safe to destroy the latch: the last countdown may not have
  notified yet (`LatchProtocol.SafeToDestroyIff`).
- A preparation time longer than the clock wraps, and only the newest record is written
  (`RecordAction.PreTriggerExact`).
- A recording does not begin with the pre-trigger window: each topic's last message is written before it,
  with its time changed, unless no topic keeps one (`RecordAction.AloneIff`). The newest record of such a
  topic is therefore written twice (`RecordAction.RepeatedIff`).
- A start whose folder cannot be made throws in its task: its caller waits for ever
  (`LatchProtocol.CallerReturnsIff`), and the recording flag stays set until a stop or a record past an
  old stop time (`RecordAction.RecordAction.StartSignalRecord`). If no writer was ever made, the next
  record meets a null pointer (`RecordAction.RecordAction.AddRecord`).
- `CheckIfInList` and `SplitToVec` differ, without trimming, for every separator longer than one character;
  with trimming they agree exactly if all of it but the last character is spaces
  (`ListSearch.AgreesExactly`).
- Out of order, a sampled record passes when the 64-bit difference of the times wraps
  (`RecordAction.PassesIff`).
- `BuildPbSchema` would emit the root twice if it imported itself (`Schema.BuildPbSchema`).
- A channel or message name that is a single space becomes an MQTT wildcard (`Url.WildcardIff`).
- Iceoryx chunks of 4 GiB or more, and TCP bodies of that size, have their length cut to 32 bits
  (`Iceoryx.ChunkRoundTrip`, `TcpFrames.InOrderIff`).
- A TCP sender may go to sleep again after the shutdown task, on the server for an hour
  (`TcpSession.SleepsAfterShutdownIff`).
- An iceoryx publisher whose doubled size has passed the pool's capacity never publishes again, however
  small the message (`IceoryxLoans.StuckForEver`); a message that would have fitted can do that unless the
  doubled sizes meet the capacity (`IceoryxLoans.EveryFittingSizeIff`).
- An iceoryx subscriber keeps the chunk on which its handler throws (`Iceoryx.HandleData`).
- A throwing RPC callback can be invoked twice (`MqttRpc.MqttRpcBackend.HandleResponse`). After 2^32 calls
  an old answer can complete a new call (`MqttRpc.SuccessIsOwnIff`), and the timer of an old call can end
  one (`MqttRpc.TimeoutIsOwnIff`).
- An RPC call has a timeout exactly if a timeout executor is configured, and by default none is
  (`MqttRpc.NeverForgotten`); without one, a call whose request or response is lost waits for ever
  (`MqttRpc.WaitsForEver`).
- A playback batch can exceed 1000 records if log times start with zeros (`PlaybackReader.OverlongIff`);
  an opened file without matching messages is read past its end (`PlaybackReader.ReadsPastEndIff`); a
  second playback continues where the first one stopped instead of starting over, and plays its whole
  window exactly if the first has left it untouched (`Playback.PlaysItsWindowIff`,
  `Playback.PlaysOnlyUntouched`); it may begin with messages from before its own start
  (`PlaybackReader.PlaysBeforeStartIff`); and whether it goes on behind a file that cannot be read depends
  on the schedule (`Playback.GoesOnBehindTheGap`).
- A stopped playback may never be ready again, if a call past its check reads past the end of a file
  (`Playback.ReadyAgainIff`).
- A JSON integer outside its member's range is cut to the member's width without an error, up to 32 bits
  (`JsonConvert.IntegerReads`).
- In the JSON converter an upper bound on something that is not an array cannot be read back
  (`JsonConvert.BoundNeedsArray`), and vectors of basic elements are appended to
  (`JsonConvert.BasicSequenceAppends`).

## Model

| member | source | states |
|---|---|---|
| `LatchProtocol.StepKeepsInv` | src/common/util/dynamiclatch.h:35-95 | every atomic step of every thread keeps the invariant: count = successful additions minus countdowns, each parked thread has a cause to wake, each owed notification is still on its way |
| `LatchProtocol.StepConserves` | src/common/util/dynamiclatch.h:35-81 | no step breaks count = added - counted down; once closed, nothing is added and the count only falls |
| `LatchProtocol.NoLostWakeup` | src/common/util/dynamiclatch.h:52-90 | in every state of every run a thread parked on an empty latch still has a notify_all owed to it by some other thread |
| `LatchProtocol.NotifiedWaiterReturns` | src/common/util/dynamiclatch.h:83-90 | that owed notify_all gets a parked thread of an empty latch out of Wait in three steps of its own |
| `LatchProtocol.WaitReturnsIff` | src/common/util/dynamiclatch.h:83-90 | Wait and CloseAndWait leave their loop if and only if nothing was outstanding when the thread last looked at the word |
| `LatchProtocol.CloseIsFinal` | src/common/util/dynamiclatch.h:63-81 | when any Close has left its loop the latch is closed, and takes no more additions, for the rest of the run |
| `LatchProtocol.ClosedEmptyIsFinal` | src/common/util/dynamiclatch.h:35-81 | closed with nothing outstanding: no step of any thread changes the word |
| `LatchProtocol.CloseAndWaitIsFinal` | src/common/util/dynamiclatch.h:92-95 | after CloseAndWait has returned anywhere in a run, the latch is closed and empty in every later state |
| `LatchProtocol.SafeToDestroyIff` | src/common/util/dynamiclatch.h:52-95 | a caller may destroy the latch when its CloseAndWait returns, however the others' countdowns fall, if and only if nothing was outstanding and nobody else was inside when it was called; otherwise the last countdown can still owe its notify_all |
| `LatchProtocol.CallerReturnsIff` | src/interface/aimrt_module_cpp_interface/executor/executor.h:91-100 | at every point of a TryExecute followed by CloseAndWait the caller can still return if and only if the task does not throw |
| `DynamicLatch.UnpackIsInjective` | src/common/util/dynamiclatch.h:106-117 | the 64-bit word is determined by its flag and its count |
| `DynamicLatch.PlusCounts` | src/common/util/dynamiclatch.h:42-46 | adding to an open word yields the sum and leaves it open exactly while the sum stays below 2^63; otherwise it sets the closed flag |
| `DynamicLatch.MinusCounts` | src/common/util/dynamiclatch.h:52-56 | subtracting no more than the count leaves the flag alone |
| `DynamicLatch.DynamicLatch.TryAddCas` | src/common/util/dynamiclatch.h:35-50 | one compare-exchange of TryAdd on the packed word is one step of the protocol, spurious failure included |
| `DynamicLatch.DynamicLatch.CloseCas` | src/common/util/dynamiclatch.h:63-81 | one compare-exchange of Close on the packed word is one step of the protocol |
| `DynamicLatch.DynamicLatch.CountDown` | src/common/util/dynamiclatch.h:52-61 | the fetch_sub is one step of the protocol, and owes a notification exactly when it reaches zero |
| `DynamicLatch.DynamicLatch.Compare` | src/common/util/dynamiclatch.h:83-90 | atomic wait compares the current word with the one seen, and parks only if they are equal |
| `BlockQueue.StepKeepsInv` | src/common/util/block_queue.h:28-65 | every step of any thread keeps: accepted items = delivered items then queue; if someone sleeps, the queue is no longer than the woken consumers that have not rerun |
| `BlockQueue.FifoAndNoLostWakeup` | src/common/util/block_queue.h:28-65 | in every reachable state delivery is first in first out with nothing lost or doubled, nobody sleeps beside an item without a woken consumer for it, and nobody sleeps once stopped |
| `BlockQueue.AcceptedComeOut` | src/common/util/block_queue.h:28-59 | over every run, in terms of what callers were told: the items got, followed by those still queued, are the items whose Enqueue was accepted, in order |
| `BlockQueue.StopIsFinal` | src/common/util/block_queue.h:28-65 | after Stop nothing is accepted or delivered in any continuation, and each Dequeue reports the stop |
| `BlockQueue.WokenConsumersDrain` | src/common/util/block_queue.h:42-49 | woken consumers that rerun one after the other take exactly the front items, in order |
| `BlockQueue.BlockQueue.Enqueue` | src/common/util/block_queue.h:28-40 | accepted exactly while running, and then the item is behind the others in the queue and one sleeper, if any, is woken; else nothing changes |
| `BlockQueue.BlockQueue.Dequeue` | src/common/util/block_queue.h:42-49 | stopped, asleep on an empty queue, or the front item, which leaves the queue |
| `BlockQueue.BlockQueue.TryDequeue` | src/common/util/block_queue.h:51-59 | the front item, which leaves the queue, or nothing if empty or stopped; it never sleeps |
| `BlockQueue.BlockQueue.Stop` | src/common/util/block_queue.h:61-65 | the flag falls, every sleeper is woken, the queue stays |
| `RecordAction.CacheIsSuffix` | src/plugins/record_playback_plugin/record_action.cc:403-414 | the two cache generations together are always a suffix of the accepted records, never empty once one was accepted |
| `RecordAction.DroppedAreOld` | src/plugins/record_playback_plugin/record_action.cc:403-414 | a record that fell out of the cache is older than the newest by more than the preparation limit |
| `RecordAction.GenerationsAreShort` | src/plugins/record_playback_plugin/record_action.cc:403-414 | a cache generation ends with exactly the first record that is further than the limit from its first one, so the cache is bounded |
| `RecordAction.PreTrigger` | src/plugins/record_playback_plugin/record_action.cc:453-499 | for ordered timestamps and a preparation time within the limit and within `now`, what is flushed is exactly the records not older than now minus preparation, or the newest one if there is none |
| `RecordAction.WrappedStartKeepsNewest` | src/plugins/record_playback_plugin/record_action.cc:453-480 | a preparation time longer than `now` wraps the 64-bit start time, and only the newest record is flushed |
| `RecordAction.PreTriggerExact` | src/plugins/record_playback_plugin/record_action.cc:453-499 | the flushed records are the requested window if and only if the start time does not wrap, or only one record was ever accepted |
| `RecordAction.FlushMeaning` | src/plugins/record_playback_plugin/record_action.cc:472-499 | what the search cuts off is a suffix of the cached records in arrival order, and the window exactly when the start time does not wrap |
| `RecordAction.AloneIff` | src/plugins/record_playback_plugin/record_action.cc:820-829 | what a start hands to the writer is the flushed records alone if and only if no topic keeps a last message |
| `RecordAction.RepeatedIff` | src/plugins/record_playback_plugin/record_action.cc:820-829 | a record is written once more at an opening if and only if it is, but for its time, the last message its topic keeps |
| `RecordAction.WritesUpToTheStop` | src/plugins/record_playback_plugin/record_action.cc:384-401 | a recording takes the records up to the first one later than its stop time and none from there on, and all of them without a stop time |
| `RecordAction.PassesIff` | src/plugins/record_playback_plugin/record_action.cc:370-374 | a sampled record passes if and only if it is at least the interval later than the last one posted, or so much earlier that the 64-bit difference wraps past the interval |
| `RecordAction.SampledApart` | src/plugins/record_playback_plugin/record_action.cc:363-378 | of a topic's records in time order, any two posted are at least the sampling interval apart, and the first is that far from the one posted before |
| `RecordAction.RecordAction.Sample` | src/plugins/record_playback_plugin/record_action.cc:363-378 | the frequency filter posts one record exactly as that filter does, touches no other topic, and keeps the last message where the topic asks for it |
| `RecordAction.RecordAction.OpenNewBag` | src/plugins/record_playback_plugin/record_action.cc:756-829 | opening a file writes every last message that a topic keeps, each once, under the opening time, and restamps it; a folder or file that cannot be opened writes nothing |
| `RecordAction.RecordAction.Write` | src/plugins/record_playback_plugin/record_action.cc:609-645 | a record goes to the writer behind the repeats of a bag opened because the old one was full; it needs a writer, which exists if one did before or the new bag made one |
| `RecordAction.RecordAction.WriteFrom` | src/plugins/record_playback_plugin/record_action.cc:482-495 | the loops over both generations hand over the cached records from the cut on, each once and in order, whichever of them find the bag full |
| `RecordAction.RecordAction.AddRecord` | src/plugins/record_playback_plugin/record_action.cc:358-417 | outside a recording the record goes to the cache generations, which stay the cache of everything accepted since; inside one it is written at once, or meets no writer exactly if none was ever made |
| `RecordAction.RecordAction.FindStart` | src/plugins/record_playback_plugin/record_action.cc:459-480 | the binary search over the concatenation of both deques finds the first record not before the start, or the last record |
| `RecordAction.RecordAction.StartSignalRecord` | src/plugins/record_playback_plugin/record_action.cc:419-504 | a start during a recording changes nothing; it throws exactly if the folder cannot be made, with only the recording flag set; otherwise the last messages kept are written under the opening time, then the records of the asked number of seconds, each once and in order, the cache is emptied, and the stop time is the asked number of seconds after now unless that wraps 64 bits |
| `RecordAction.RecordAction.StopSignalRecord` | src/plugins/record_playback_plugin/record_action.cc:506-525 | stopping clears the recording flag and touches nothing else |
| `Schema.BuildPbSchema` | src/plugins/record_playback_plugin/record_action.cc:832-850 | on every finite import graph it terminates; behind the root come exactly the transitively imported files, each once, and the root itself is repeated if and only if it imports itself |
| `Schema.BuildROS2Schema` | src/plugins/record_playback_plugin/record_action.cc:852-966 | on every finite type graph it fails if and only if some reachable type is more than 50 references away; otherwise there is exactly one section for every reachable type, the root first |
| `Schema.ReferencedTypesAreDefined` | src/plugins/record_playback_plugin/record_action.cc:852-966 | every type that an emitted section refers to has a section of its own |
| `ReplaceString.MarkedReplacement` | src/common/util/string_util.h:432-440 | rewriting at the positions the search loop collects is the left-to-right replacement of non-overlapping occurrences |
| `ReplaceString.TailIsReplacement` | src/common/util/string_util.h:434-440 | the rewriting of any tail of the text is the replacement of that tail |
| `ReplaceString.HeadTail` | src/common/util/string_util.h:445-467 | the rewritten text splits at every mark into what the forward and the backward pass produce |
| `ReplaceString.MatchIsReplaced` | src/common/util/string_util.h:434-438 | an occurrence is replaced by the new text, and the rest is treated from behind it |
| `ReplaceString.ShrinkAll` | src/common/util/string_util.h:445-455 | the forward pass over a shorter replacement moves each kept piece before it is overwritten and ends with the rewritten text |
| `ReplaceString.GrowAll` | src/common/util/string_util.h:456-467 | the backward pass over a longer replacement overwrites no source character that is still to be moved and ends with the rewritten text |
| `ReplaceString.StdString.CollectPositions` | src/common/util/string_util.h:433-438 | the search loop collects exactly the leftmost non-overlapping occurrences and the end |
| `ReplaceString.StdString.ReplaceString` | src/common/util/string_util.h:429-471 | whichever of the three in-place branches runs, the buffer ends as the functional replacement; an empty old text changes nothing |
| `ListSearch.SplitToVec` | src/common/util/string_util.h:225-247 | the splitting loop returns exactly the trimmed, optionally cleared segments between consecutive separators |
| `ListSearch.FlagsOfSplit` | src/common/util/string_util.h:225-247 | trimming trims each entry of the plain split, clearing drops the empty entries, and neither does anything else |
| `ListSearch.PlainEntriesAreFree` | src/common/util/string_util.h:225-247 | no entry of the plain split holds the separator |
| `ListSearch.CheckIfInList` | src/common/util/string_util.h:334-365 | the jumping search returns its specification, and for a one-character separator membership in the split list |
| `ListSearch.ScanDecides` | src/common/util/string_util.h:342-361 | from any segment start, jumping from key to key decides membership in the remaining segments |
| `ListSearch.SingleCharAgrees` | src/common/util/string_util.h:334-365 | for every text, nonempty key, one-character separator and flags: true if and only if the key is an element of the split list |
| `ListSearch.PaddedAgrees` | src/common/util/string_util.h:334-365 | with trimming, the default, search and split agree on every text and nonempty key if all of the separator but its last character is spaces |
| `ListSearch.OverlapIsMissed` | src/common/util/string_util.h:334-365 | for any other separator longer than one character, and without trimming for every such separator, there are a text and a key without the separator in it where the search misses an element of the split list |
| `ListSearch.AgreesExactly` | src/common/util/string_util.h:334-365 | search and split agree on all texts and nonempty keys if and only if: with trimming, all of the separator but its last character is spaces; without, the separator is one character |
| `ListSearch.JoinOfSplit` | src/common/util/string_util.h:225-267 | joining the untrimmed, uncleared split with the separator gives the text back, for every separator |
| `ListSearch.JoinVec` | src/common/util/string_util.h:257-267 | the joining loop puts the separator between the entries and nowhere else |
| `ListSearch.TrimIsInside` | src/common/util/string_util.h:33-40 | trimming keeps a piece of the text |
| `ListSearch.OnlySpacesGo` | src/common/util/string_util.h:33-40 | trimming loses no character but spaces |
| `Utf8.SafeTruncationLength` | src/common/util/string_util.h:879-898 | the loop steps back to the nearest position that is not a continuation byte |
| `Utf8.ValidIff` | src/common/util/string_util.h:879-898 | valid text, as the two results below take it, is exactly the encoding of a sequence of Unicode characters |
| `Utf8.ValidPrefixIff` | src/common/util/string_util.h:879-898 | a prefix of valid UTF-8 is valid if and only if it does not stop in front of a continuation byte |
| `Utf8.LongestValidPrefix` | src/common/util/string_util.h:879-898 | on valid UTF-8 the result is the longest valid prefix within the limit, and gives up at most three bytes |
| `Url.RoundTrip` | src/common/util/url_encode.h:35-114 | decoding undoes encoding on every byte string, for URLs and for header names, in both hex cases |
| `Url.EncodingIsInjective` | src/common/util/url_encode.h:35-114 | equal encodings, even in different hex cases, come from equal texts |
| `Url.EncodedAlphabet` | src/common/util/url_encode.h:35-50 | an encoding contains no slash and no hash sign, and a plus sign exactly if the text has a space |
| `Url.ByteIsWritten` | src/common/util/url_encode.h:35-102 | letters, digits and the hyphen stay, for URLs also dot, underscore and tilde; a space becomes a plus in URLs; all else is a percent sign and two hex digits in the chosen case |
| `Url.HexValue` | src/common/util/url_encode.h:11-27 | hex digits of either case have their value, any other character counts as zero |
| `Url.Encode` | src/common/util/url_encode.h:35-50 | the encoding loop computes the byte-wise encoding |
| `Url.Decode` | src/common/util/url_encode.h:59-79 | the decoding loop computes the decoding, dropping everything from a cut-off percent sign on |
| `Url.ChannelTopicIsInjective` | src/plugins/mqtt_plugin/mqtt_channel_backend.cc:184-186 | different channels (topic, type) have different MQTT topics |
| `Url.TopicsAreWritten` | src/plugins/mqtt_plugin/mqtt_rpc_backend.cc:326-336 | the topics are the fixed prefix and the names in upper-case encoding with a slash between them |
| `Url.RequestTopicsAreDisjoint` | src/plugins/mqtt_plugin/mqtt_rpc_backend.cc:326-340 | request topics of a named server never equal a shared one, and each determines its names |
| `Url.WildcardIff` | src/plugins/mqtt_plugin/mqtt_channel_backend.cc:184-186 | an encoded name is the one-level wildcard of MQTT if and only if the name is a single space |
| `Buffer.DecodeEncode` | src/common/util/buffer_util.h:17-83 | reading w little-endian bytes back gives the number modulo 2^(8w) |
| `Buffer.EncodeDecode` | src/common/util/buffer_util.h:17-83 | writing the number read from bytes gives those bytes |
| `Buffer.LittleEndian` | src/common/util/buffer_util.h:17-83 | the lowest byte comes first |
| `Buffer.TakeEncoded` | src/common/util/buffer_util.h:277-302 | a string that fits its length prefix is read back, with what follows it |
| `Buffer.TakenIsEncoded` | src/common/util/buffer_util.h:277-302 | whatever a read of a string accepts is the encoding of what it returns |
| `Buffer.SetBufFromUint` | src/common/util/buffer_util.h:17-72 | byte-by-byte writing fills exactly its window with the little-endian form |
| `Buffer.GetUintFromBuf` | src/common/util/buffer_util.h:29-83 | byte-by-byte reading gives the number |
| `Buffer.BufferOperator.SetUint` | src/common/util/buffer_util.h:118-144 | fails without effect if and only if the bytes do not fit; otherwise appends them and leaves what is behind the cursor alone |
| `Buffer.BufferOperator.SetBuffer` | src/common/util/buffer_util.h:146-152 | the same for raw bytes |
| `Buffer.BufferOperator.SetString` | src/common/util/buffer_util.h:158-195 | succeeds exactly if prefix and text fit the buffer and the length fits the prefix; the bounds are checked first |
| `Buffer.ConstBufferOperator.GetUint` | src/common/util/buffer_util.h:230-260 | reads the number at the cursor or fails without moving |
| `Buffer.ConstBufferOperator.GetString` | src/common/util/buffer_util.h:277-302 | reads the string at the cursor, or reports the first bound violated |
| `Packets.ParseOfPacket` | src/plugins/mqtt_plugin/mqtt_channel_backend.cc:206-222 | the subscriber reads back type, pairs and message of every packet whose lengths fit; a stray string without a partner opens the message |
| `Packets.PacketOfParse` | src/plugins/mqtt_plugin/mqtt_channel_backend.cc:206-222 | only packets can be parsed, and the parsed parts rebuild the very bytes |
| `Packets.PacketRoundTrip` | src/plugins/mqtt_plugin/mqtt_channel_backend.cc:206-222 | a content survives the packet if and only if its lengths fit and its metadata comes in pairs |
| `Packets.PacketBytes` | src/plugins/mqtt_plugin/mqtt_channel_backend.cc:295-309 | the bytes of a packet: one byte for the length of the type, one for the number of pairs, then the strings and the message |
| `Packets.StringBytes` | src/plugins/mqtt_plugin/mqtt_channel_backend.cc:299-302 | each key and value has two length bytes in front, the low one first |
| `Packets.BuildMqtt` | src/plugins/mqtt_plugin/mqtt_channel_backend.cc:277-309 | Publish builds the packet if and only if every length fits and the size is within the limit; the computed size is the written size, so no byte remains |
| `Packets.ParsePacket` | src/plugins/mqtt_plugin/mqtt_channel_backend.cc:206-222 | the handler's cursor code parses as the format says, errors included |
| `Packets.WriteHeader` | src/plugins/mqtt_plugin/mqtt_channel_backend.cc:295-302 | the header is written exactly if it fits the buffer and every length fits its prefix, and nothing behind it changes |
| `Packets.TakeEncodedStrings` | src/plugins/mqtt_plugin/mqtt_channel_backend.cc:213-218 | strings written one behind the other are read back one by one |
| `Iceoryx.ChunkRoundTrip` | src/plugins/iceoryx_plugin/iceoryx_channel_backend.cc:148-167 | the subscriber gets the published content back from a chunk of any size if and only if the total length fits 32 bits |
| `Iceoryx.ChunkBytes` | src/plugins/iceoryx_plugin/iceoryx_channel_backend.cc:318-320 | a chunk begins with four bytes that count the whole of it, themselves included |
| `Iceoryx.FillChunk` | src/plugins/iceoryx_plugin/iceoryx_channel_backend.cc:282-320 | one pass of the loop fills the chunk, runs out of memory, or throws, exactly as the lengths and the chunk's size say |
| `Iceoryx.FillWithRetry` | src/plugins/iceoryx_plugin/iceoryx_channel_backend.cc:281-322 | the double-and-retry loop terminates and publishes nothing itself; unless another call has grown the shared size meanwhile, it never grows it to twice what is needed |
| `Iceoryx.Publish` | src/plugins/iceoryx_plugin/iceoryx_channel_backend.cc:276-324 | without a cached serialization: on every way out the handle holds no chunk; a chunk is published exactly if one was sent; with a willing pool it is sent if and only if the lengths fit, the message serializes, and doubling the size known before the call ends within the pool's capacity |
| `Iceoryx.PublishCached` | src/plugins/iceoryx_plugin/iceoryx_channel_backend.cc:233-272 | with a cached serialization: one loan of the known size, no retry; on every way out the handle holds no chunk; it is sent if and only if the pool is willing, the lengths fit, and the doubling ends within the capacity |
| `Iceoryx.HandleData` | src/plugins/iceoryx_plugin/iceoryx_channel_backend.cc:142-182 | the subscriber releases the chunks it took in order, each once; every taken chunk is released if and only if no chunk makes the handler throw, otherwise exactly the throwing one stays taken |
| `Iceoryx.IoxPublisher.LoanShm` | src/plugins/iceoryx_plugin/iceoryx_manager.cc:56-73 | a loan is one step of the ledger; it fails exactly if the pool has no chunk of the grown size |
| `Iceoryx.IoxPublisher.UpdateLoanShm` | src/plugins/iceoryx_plugin/iceoryx_manager.cc:75-92 | the old chunk is released before the new loan; if that fails the handle is left empty |
| `Iceoryx.IoxPublisher.PublishShm` | src/plugins/iceoryx_plugin/iceoryx_manager.cc:94-99 | the chunk leaves the handle for the subscribers |
| `Iceoryx.IoxPublisher.Destroy` | src/plugins/iceoryx_plugin/iceoryx_manager.h:19-21 | the destructor releases the chunk, if the handle still has one |
| `IceoryxLoans.GrowInPlace` | src/plugins/iceoryx_plugin/iceoryx_manager.cc:59-61 | doubling the 64-bit size ends, at the least doubling that is large enough, without wrapping |
| `IceoryxLoans.StepKeepsInv` | src/plugins/iceoryx_plugin/iceoryx_manager.cc:56-99 | every interleaved critical section keeps: each loaned chunk is with one handle, released once, or published once |
| `IceoryxLoans.AllCallsOver` | src/plugins/iceoryx_plugin/iceoryx_manager.cc:56-99 | over every run, once all publishing calls are over, each loaned chunk has been released or published, counted exactly once |
| `IceoryxLoans.PublishedHandleIsEmpty` | src/plugins/iceoryx_plugin/iceoryx_manager.cc:94-99 | after publishing no handle has the chunk, and the destructor releases nothing |
| `IceoryxLoans.EveryFittingSizeIff` | src/plugins/iceoryx_plugin/iceoryx_manager.cc:59-64 | every message that the pool could hold can be sent if and only if the doubled sizes meet the capacity |
| `IceoryxLoans.StuckForEver` | src/plugins/iceoryx_plugin/iceoryx_manager.cc:56-92 | over every run, once the doubled size is above the capacity no chunk is ever loaned again, and nothing is published but what was loaned before |
| `IceoryxLoans.FewRetries` | src/plugins/iceoryx_plugin/iceoryx_channel_backend.cc:307-312 | with a pool below 2^b bytes a call retries fewer than b times |
| `TcpFrames.PostsInOrder` | src/common/net/asio_tcp_svr.h:383-423 | from any prefix of a stream of bodies below 4 GiB the receiver posts a prefix of the bodies |
| `TcpFrames.PostsAll` | src/common/net/asio_tcp_svr.h:383-423 | from the whole stream it posts every body, if none is above the limit |
| `TcpFrames.InOrderIff` | src/common/net/asio_tcp_svr.h:383-423 | for bodies of any size: what is posted is what was sent if and only if no body of 4 GiB or more is cut by the 32-bit cast to a length the receiver lets through |
| `TcpFrames.GatherBatch` | src/common/net/asio_tcp_cli.h:197-216 | the buffers of a batch, one behind the other, are the frames of its messages in order |
| `TcpFrames.FrameBytes` | src/common/net/asio_tcp_cli.h:197-216 | a frame is 'Y', 'T', four length bytes, the low one first, and the body |
| `TcpFrames.PostsNext` | src/common/net/asio_tcp_svr.h:383-423 | the receiver stops at a head that does not begin with these two bytes or a length above its limit, waits for the rest of a frame, and else posts the body and goes on behind it |
| `TcpFrames.Receive` | src/common/net/asio_tcp_svr.h:383-423 | the receive loop posts exactly the complete, well-formed, not oversized frames up to the first that is not |
| `TcpSession.StepKeepsInv` | src/common/net/asio_tcp_cli.h:193-261 | every step of sender, SendMsg, socket, timer and shutdown keeps the stream equal to the frames handed over, and conserves the messages |
| `TcpSession.StepConserves` | src/common/net/asio_tcp_cli.h:195-223 | handed-over messages followed by the waiting ones are always the accepted ones |
| `TcpSession.DeliveredInOrder` | src/common/net/asio_tcp_cli.h:195-251 | end to end, over every run and for any part of the bytes arrived: the messages posted are accepted messages in order, each once, and between them only empty heartbeats |
| `TcpSession.NeverAsleepOnWork` | src/common/net/asio_tcp_cli.h:195-234 | in every reachable state with waiting messages the sender has bytes to write or is about to run; it is never asleep on a timer nobody cancelled |
| `TcpSession.BeatsAreExpiries` | src/common/net/asio_tcp_cli.h:225-250 | over every run the heartbeats handed over are as many as the client's sender found its timer expired; a server hands over none |
| `TcpSession.ExpiryBeats` | src/common/net/asio_tcp_cli.h:225-250 | such an expiry puts exactly the six bytes of an empty frame in hand and changes nothing else |
| `TcpSession.OutsideSteps` | src/common/net/asio_tcp_cli.h:195-374 | the socket takes bytes from the front of what is in hand; a failed write ends the sender; timer, stop and shutdown task do what they say and nothing else |
| `TcpSession.AcceptedAreSent` | src/common/net/asio_tcp_cli.h:376-389 | over every run the accepted messages are those sent before the first stop or failed write, in order |
| `TcpSession.SleepsAfterShutdownIff` | src/common/net/asio_tcp_svr.h:326-375 | the shutdown task leaves the sender going to sleep on a fresh timer if and only if it came between the last write and its handler |
| `TcpSession.SleepsAfterShutdown` | src/common/net/asio_tcp_svr.h:326-375 | such a run exists, on client and server |
| `TcpSession.Session.RunSender` | src/common/net/asio_tcp_cli.h:195-251 | the coroutine from one suspension to the next: a heartbeat on a client whose timer expired, else all waiting messages in one write, else a fresh timer, or the end when no longer running |
| `TcpSession.Session.SendMsg` | src/common/net/asio_tcp_cli.h:376-389 | accepts a message only while running, and cancels the timer if the sender waits on it |
| `TcpSession.Session.RunShutdownTask` | src/common/net/asio_tcp_cli.h:337-374 | the task cancels a waiting sender's timer and closes the socket |
| `IdleWatchdog.Session.Run` | src/common/net/asio_tcp_svr.h:436-463 | the timer loop closes the session at the first tick that finds the flag down |
| `IdleWatchdog.StaysOpenIff` | src/common/net/asio_tcp_svr.h:436-463 | the session stays open if and only if data precedes every tick since the tick before |
| `IdleWatchdog.ClosesInTime` | src/common/net/asio_tcp_svr.h:436-463 | with ticks d apart it closes d after the start if there was no data, else between d and 2d after the last data |
| `RpcPackets.RequestRoundTrip` | src/plugins/mqtt_plugin/mqtt_rpc_backend.cc:198-223 | the server reads back every request that Invoke can send, the id as its raw four bytes |
| `RpcPackets.ResponseRoundTrip` | src/plugins/mqtt_plugin/mqtt_rpc_backend.cc:409-413 | a server that echoes the raw id bytes gives the client its number back, with code and message |
| `RpcPackets.RequestBytes` | src/plugins/mqtt_plugin/mqtt_rpc_backend.cc:581-599 | the bytes of a request |
| `RpcPackets.ResponseBytes` | src/plugins/mqtt_plugin/mqtt_rpc_backend.cc:288-302 | the bytes of a response |
| `RpcPackets.RequestOfParse` | src/plugins/mqtt_plugin/mqtt_rpc_backend.cc:198-223 | only requests can be read, and the parts give back the very bytes |
| `RpcPackets.ResponseOfParse` | src/plugins/mqtt_plugin/mqtt_rpc_backend.cc:409-413 | only responses can be read, and the parts give back the very bytes |
| `RpcPackets.BuildRequest` | src/plugins/mqtt_plugin/mqtt_rpc_backend.cc:581-599 | the buffer of the computed size is filled with the request, unless a length does not fit its prefix |
| `RpcPackets.BuildResponse` | src/plugins/mqtt_plugin/mqtt_rpc_backend.cc:291-302 | the response carries the four bytes of the request unchanged |
| `RpcPackets.ReadResponse` | src/plugins/mqtt_plugin/mqtt_rpc_backend.cc:409-413 | the cursor code reads the response format, errors included |
| `RpcPackets.ReadRequest` | src/plugins/mqtt_plugin/mqtt_rpc_backend.cc:198-223 | the cursor code reads the request format, errors included |
| `RpcPackets.HandleRequest` | src/plugins/mqtt_plugin/mqtt_rpc_backend.cc:186-322 | the service answers every well-formed request once, to its reply topic, with its own id and type; the code is 0, with the response behind it, if and only if the request deserializes, the service says OK, the response serializes and the packet is within the limit; else it is 1007, the status, 1005 or 1000 in that order, with no message |
| `MqttRpc.StepKeepsInv` | src/plugins/mqtt_plugin/mqtt_rpc_backend.cc:405-460 | sending, losing, repeating, reordering, answering, timing out: every step keeps records, timers, packets and callbacks consistent |
| `MqttRpc.CallbackFiresOnce` | src/plugins/mqtt_plugin/mqtt_rpc_backend.cc:405-460 | over every run a callback fires at most once, or twice if it throws |
| `MqttRpc.ResponseIsForTheCall` | src/plugins/mqtt_plugin/mqtt_rpc_backend.cc:405-452 | until ids wrap, a success or a server's error code reaches only the call that the server answered, and success only if the server answered OK |
| `MqttRpc.SuccessIsOwnIff` | src/plugins/mqtt_plugin/mqtt_rpc_backend.cc:405-460 | in every run with up to `limit` ids success reaches only the call that was answered, if and only if `limit` is at most 2^32; past it a run is built in which an old answer completes a new call |
| `MqttRpc.TimeoutIsOwnIff` | src/runtime/core/util/rpc_client_tool.h:37-58 | in every run with up to `limit` ids a timer ends only the call it was set for, if and only if `limit` is at most 2^32; past it a run is built in which an old call's timer ends a new call |
| `MqttRpc.NeverForgotten` | src/runtime/core/util/rpc_client_tool.h:37-58 | a call whose callback has not fired still has its record; it has a timer, which then reports the timeout, if and only if a timeout executor is configured |
| `MqttRpc.WaitsForEver` | src/runtime/core/util/rpc_client_tool.h:37-58 | without a timeout executor, which is the default, such a call stays silent in every continuation that brings no response to its id |
| `MqttRpc.WaitingCallExists` | src/plugins/mqtt_plugin/mqtt_rpc_backend.cc:105-126 | without a timeout executor there is a run with one waiting call and no timer |
| `MqttRpc.MqttRpcBackend.Invoke` | src/plugins/mqtt_plugin/mqtt_rpc_backend.cc:469-599 | a call is recorded under the next id and sent, or its callback told the code of the first check that fails, 2002, 2000, 2006 or 2010, in the order of the checks |
| `MqttRpc.MqttRpcBackend.HandleResponse` | src/plugins/mqtt_plugin/mqtt_rpc_backend.cc:405-460 | the handler takes the record of the echoed id out and completes that call only: with the server's code, or 0, or 2008 if the response does not deserialize, or 2002 if that throws; the callback fires a second time, with 2002, if and only if it throws where the handler's catch invokes it again |
| `MqttRpc.MqttRpcBackend.HandleTimeout` | src/runtime/core/util/rpc_client_tool.h:47-54 | the timeout completes a call, with code 2, if and only if its record is still there |
| `PlaybackReader.FetchBatch` | src/plugins/record_playback_plugin/playback_action.cc:401-451 | the reading loop computes the batch, across file boundaries |
| `PlaybackReader.BatchIsPrefix` | src/plugins/record_playback_plugin/playback_action.cc:410-451 | a batch is a prefix of the messages ahead, wherever the files end |
| `PlaybackReader.BatchEnds` | src/plugins/record_playback_plugin/playback_action.cc:404-449 | a batch whose first message has a log time ends with the first message a second later, with the thousandth, or before the first past the stop |
| `PlaybackReader.OverlongIff` | src/plugins/record_playback_plugin/playback_action.cc:405-450 | a batch exceeds 1000 records if and only if more than 1000 messages are ahead, none of the first 1001 past the stop, and the first 999 log times are zero |
| `PlaybackReader.ReadsPastEndIff` | src/plugins/record_playback_plugin/playback_action.cc:411-449 | the end iterator is read if and only if one batch takes all that can be seen (none past the stop, and behind the first nonzero log time fewer than 1000 records within a second) and the next file opens with nothing in its window |
| `PlaybackReader.PlaysBeforeStartIff` | src/plugins/record_playback_plugin/playback_action.cc:372-416 | a batch holds messages from before the playback's own start if and only if the file an earlier playback left open goes on with one that is not past the stop |
| `PlaybackReader.CollectRises` | src/plugins/record_playback_plugin/playback_action.cc:410-451 | a call takes messages from the front of the untouched ones and leaves the rest in order |
| `PlaybackReader.NothingPastStop` | src/plugins/record_playback_plugin/playback_action.cc:424-429 | no message beyond the stop time enters a batch |
| `PlaybackReader.NothingToPlayIff` | src/plugins/record_playback_plugin/playback_action.cc:401-451 | a call takes nothing if and only if no message ahead is in the window, or the first one is past the stop |
| `Playback.StepKeepsInv` | src/plugins/record_playback_plugin/playback_action.cc:307-486 | every step of starter, chains, stop signal and counter keeps mode, counter and bag position consistent |
| `Playback.ReadyMeansAllDone` | src/plugins/record_playback_plugin/playback_action.cc:307-331 | in every reachable state, ready to play means no holder of the counter is left, at most two continuations are pending, and a mode other than ready always has a holder or a due deleter |
| `Playback.EachMessageOnceInOrder` | src/plugins/record_playback_plugin/playback_action.cc:393-486 | over all playbacks each message of the bag is in at most one batch, batches follow the bag's order, and its log times if those rise, and none is past its playback's stop |
| `Playback.PlaysOnlyUntouched` | src/plugins/record_playback_plugin/playback_action.cc:307-486 | over every run, what is played after any state comes in order from the messages untouched in that state |
| `Playback.PlaysWhatIsDue` | src/plugins/record_playback_plugin/playback_action.cc:307-486 | over every run and schedule of the two chains, an undisturbed playback has played at its end, before anything else, what one reading call after the other would play; and nothing else if the files are playable: readable, in time order, each with something in the window up to the first that begins after the stop |
| `Playback.PlaysItsWindowIff` | src/plugins/record_playback_plugin/playback_action.cc:307-486 | over every run, an undisturbed playback of playable files has played its whole window at its end if and only if no earlier one had taken, thrown away or skipped part of it, since nothing rewinds |
| `Playback.StopStops` | src/plugins/record_playback_plugin/playback_action.cc:289-305 | over every run, after a stop signal taken while playing the mode is not playing again before the next start, and only the calls already past their check, two at most, still add a batch each |
| `Playback.ReadyAgainIff` | src/plugins/record_playback_plugin/playback_action.cc:289-486 | from every state after that the playback can become ready for another start if and only if none of these calls reads past the end of a file |
| `Playback.PlaybackAction.StopSignalPlayback` | src/plugins/record_playback_plugin/playback_action.cc:289-305 | playing becomes stopping; any other mode stays |
| `Playback.GoesOnBehindTheGap` | src/plugins/record_playback_plugin/playback_action.cc:333-358 | in front of a file that cannot be read one chain ends and the other can go on behind it: such a run, message by message |
| `Playback.BatchLimit` | src/plugins/record_playback_plugin/playback_action.cc:404-451 | the exact condition for a batch above 1000 records, in any state of a playback |
| `Playback.PlaybackAction.StartSignalPlayback` | src/plugins/record_playback_plugin/playback_action.cc:268-331 | accepted exactly when ready, with the 64-bit wrap of the times; a refused start changes nothing |
| `Playback.PlaybackAction.RunStarter` | src/plugins/record_playback_plugin/playback_action.cc:307-331 | one call of the starter is its step of the protocol |
| `Playback.PlaybackAction.ReadNextBatch` | src/plugins/record_playback_plugin/playback_action.cc:401-486 | one locked section takes one batch and leaves one continuation, or none if it found nothing |
| `HttpPool.StepKeepsInv` | src/common/net/asio_http_cli.h:110-145 | every atomic access of the scan, interleaved with sessions ending on other strands, keeps the pool consistent |
| `HttpPool.PoolIsSafe` | src/common/net/asio_http_cli.h:110-145 | in every reachable state a session carries at most one request, an idle one none, no request has two sessions, the list is within its limit, and no running session is outside it |
| `HttpPool.ShutdownIsFinal` | src/common/net/asio_http_cli.h:392-396 | a session that was shut down stays so and is given no further request, however the steps fall |
| `HttpPool.ScannedTakesFirst` | src/common/net/asio_http_cli.h:117-141 | undisturbed, the steps of the scan take the first running idle session and erase the dead ones before it; else they add a session, exactly if the running ones leave room |
| `HttpPool.ReusedAfterSuccess` | src/common/net/asio_http_cli.h:110-145 | after a success the next undisturbed request goes to a session that is there, to that one if no other is free; the pool neither grows nor refuses |
| `HttpPool.OutsideSteps` | src/common/net/asio_http_cli.h:202-396 | a success makes its session idle and empty, a failure leaves it down and empty, a shutdown only takes it down, that of the client takes all listed ones down |
| `HttpPool.AsioHttpClient.TakeSession` | src/common/net/asio_http_cli.h:110-145 | the method ends in the state that the steps of the scan reach from the request on |
| `JsonConvert.RoundTrip` | src/common/ros2_util/json_convert.h:179-609 | for every supported type, typed value and target whose sequences are empty, reading what was written rebuilds the value |
| `JsonConvert.DefaultRoundTrip` | src/common/ros2_util/json_convert.h:622-689 | the same for a default-constructed message |
| `JsonConvert.MemberRoundTrip` | src/common/ros2_util/json_convert.h:93-177 | the same for one member: fixed arrays, bounded and unbounded sequences, nested or basic |
| `JsonConvert.BasicRoundTrip` | src/common/ros2_util/json_cpp_utils.h:11-79 | every value of a basic type survives jsoncpp's range checks and the narrowing, alone and as a vector element |
| `JsonConvert.BasicIsWritten` | src/common/ros2_util/json_convert.h:250-330 | the kind of JSON that each basic type is written as |
| `JsonConvert.IntegerReads` | src/common/ros2_util/json_cpp_utils.h:11-79 | an integer is read as itself if and only if it is in the range of its member; else it is cut to the width of the member, or refused outside the range of the 32-bit or 64-bit read |
| `JsonConvert.IntegerInReal` | src/common/ros2_util/json_cpp_utils.h:64-72 | an integer is read into a real member as that number |
| `JsonConvert.RealReads` | src/common/ros2_util/json_cpp_utils.h:11-62 | a real number is read into a whole member cut toward zero if it is within the range of the read, and refused otherwise |
| `JsonConvert.PushedKinds` | src/common/ros2_util/json_convert.h:24-53 | a vector of booleans takes only booleans, one of bytes only whole numbers that fit 32 bits unsigned |
| `JsonConvert.OtherKinds` | src/common/ros2_util/json_cpp_utils.h:11-79 | what null, booleans, texts, arrays and objects are as basic values |
| `JsonConvert.NamedAreRead` | src/common/ros2_util/json_convert.h:179-246 | the members named in the object are read, each into its own place, all others keep what they had, and it fails if and only if one of the named ones does |
| `JsonConvert.ArrayShapes` | src/common/ros2_util/json_convert.h:80-177 | what sequences, bounded sequences and fixed arrays demand of the length and kind of the JSON |
| `JsonConvert.FieldsAsJson` | src/common/ros2_util/json_convert.h:600-609 | with distinct names every member's node is still in the finished object, and nothing else is |
| `JsonConvert.DefaultIsBlank` | src/common/ros2_util/json_convert.h:134-151 | a default-constructed message, at any depth, has only empty sequences |
| `JsonConvert.BoundNeedsArray` | src/common/ros2_util/json_convert.h:24-26 | a member survives if and only if an upper bound is set on arrays only: the two directions test different flags |
| `JsonConvert.BasicSequenceAppends` | src/common/ros2_util/json_convert.h:66-77 | reading into a vector of basic elements that is not empty appends to it |
| `JsonConvert.MessageToJsonImpl` | src/common/ros2_util/json_convert.h:600-609 | the loop over the members builds the object, or fails at the first member that cannot be written |
| `JsonConvert.WriteMemberNode` | src/common/ros2_util/json_convert.h:571-598 | the loops over vector and C array build the array node |
| `JsonConvert.JsonToMessageImpl` | src/common/ros2_util/json_convert.h:179-246 | the loop over the members writes those present in the JSON and keeps the others |
| `JsonConvert.JsonToMember` | src/common/ros2_util/json_convert.h:93-177 | member, sequence and nested writers reject and write as the descriptor says |

## Left out

- Sockets, DNS, Boost.Asio, MQTTAsync, iceoryx, mcap, ROS introspection and jsoncpp's parser are outside code: a byte stream that delivers prefixes, a network that loses, repeats and reorders, a pool that grants or refuses, a reader that hands out a file's messages inside a time window, a tree of JSON values.
- Memory order and data races: atomics are sequentially consistent steps, and the plain flag of the idle timer is read and written atomically.
- DynamicLatch.DynamicLatch.TryAddCas: an addition that carries the count to 2^63 is excluded here; DynamicLatch.PlusCounts says what it does to the word.
- DynamicLatch.DynamicLatch.CountDown: requires a count not below what is subtracted, as the source asserts after the fact.
- The manual unlock inside lock guards of the playback is taken as the critical section it means to be.
- Lifecycle states (Initialize, Start, Shutdown of the plugins) are assumed to be called in order, except where a model has a running flag.
- The recorder's size estimate in floating point is a parameter that says when a bag is full; the old files it deletes, the metadata file, extra files and flushing are not modelled, nor whether the mcap writer accepts what it is handed.
- RecordAction.RecordAction.StartSignalRecord: the executor's queueing is not modelled; a task runs as one step, on an executor that survives a task's exception.
- Schema.BuildROS2Schema: the text inside a section is not modelled, only which types get one, in which order of discovery, and the depth error.
- ReplaceString.StdString.ReplaceString: the new text is a value, so it cannot alias the buffer being edited.
- Buffer.ConstBufferOperator.GetString: pointer arithmetic does not overflow, so 8-byte lengths near 2^64 are simply out of bounds.
- Buffer.BufferOperator.SetUint: one method for the four widths; on little-endian machines the source copies the word instead of writing byte by byte, with the same bytes.
- Iceoryx.IoxPublisher.LoanShm: requires a positive size and a request of at most 2^63 bytes, which guarantee that the source's doubling loop ends; the pool's capacity is assumed to be at most 2^62 bytes.
- Iceoryx.Publish: requires a chunk of at most 2^63 bytes, for the same reason; so does Iceoryx.PublishCached.
- IceoryxLoans.GrowInPlace: the same requirements on size and request, for the same reason.
- Iceoryx.ChunkRoundTrip: a stored length outside the chunk, where the source would read other memory, counts as out of bounds.
- TcpSession.DeliveredInOrder: delivery is the order in which messages are posted; the order in which the executor runs the handlers is not modelled.
- IdleWatchdog.ClosesInTime: ticks are exactly one duration apart; scheduling delay is not modelled.
- MqttRpc.ResponseIsForTheCall: one client; several clients have different reply topics. The executor and the network never forge packets, and metadata comes in pairs.
- MqttRpc.MqttRpcBackend.Invoke: the reply topic is taken to be short enough for its prefix, which registration checks; sending is a separate step of the protocol.
- Playback.ReadyMeansAllDone: the publishing tasks of a batch other than its last hold no counter and are not part of the state; they may still be pending when the mode is ready.
- Playback.EachMessageOnceInOrder: publishing times are not modelled, so neither is the wrap of the offset of a message older than the playback's start.
- HttpPool: HTTP itself, timeouts and the outer pool of clients by host; a request succeeds or gives up at any time.
- JsonConvert.RoundTrip: numbers are exact, so rounding of floating-point text is not modelled; long double, wide strings and numbers read as strings are not covered; memory layout, offsets and vtables of the introspection data are not modelled. Writing past the end of a fixed nested array is the error OutOfBounds.
- JsonConvert.JsonToMessageImpl: the message is a value returned, so fields already written before an error are not visible.
- Trim on a mutable string, GetValueFromStrKV, version comparison, LightSignal and the YAML conversions, which would add easy members or have no clean property.
- RecordAction.RecordAction.Sample: timestamps are taken modulo 2^64 as in the source; the clock itself is a parameter.
