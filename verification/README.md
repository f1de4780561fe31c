# LinuxLive in Dafny

LinuxLive connects desktop clients through small WebSocket relays. This project models the four parts
of it that are hard to get right and proves what they keep:

- **The relay's event store and rate limiter.** `RelayStore` has the critical sections of the relay as
  functions on its state, and a class `RelayServer` that carries them out in place with the relay's
  loops. `RelayProtocol` interleaves them: any number of session threads, each between two of the
  separately locked steps of one EVENT message, beside the prune thread, operator calls and a clock that
  never goes back. `RelayRateLimit` and `RelayStorage` prove properties of every run of that system.
  `RelayTightness` and `RelayCapTightness` build runs that reach the bounds, with the steps of `RelayRuns`
  and the plans of `RelaySchedules`, and so say exactly when the rate limit and the caps are kept.
- **WebSocket framing and the handshake, at both ends.** `Frames` has the two encoders, `Streams` the
  two frame readers over a byte stream that TCP cuts into arbitrary segments, `ClientSession` (the
  relay's end) and `WsClient` the objects with their loops, `Segmentation` the theorems about cuts, and `Messages` those
  about the frames, texts, pongs and unfinished frames that result.
  `Base64` and `Handshake` cover what precedes the first frame (RFC 4648, section 4; RFC 6455, sections
  4.1 and 4.2.2).
- **Text codecs.** `Basics`, `Bytes` and `Text` have integer widths, bytes, exclusive or, big-endian numbers, first-occurrence
  search, decimal, hexadecimal and signed numbers. `Identity` is the identity file, `Signing` the signed events, `Url`
  the WebSocket URL parser.
- **Achievements.** `Yaml` is the line-based reader of definition files, `Checks` the checks of the
  criteria and which settings can pass them, `Scanner` the unlock state machine over scans and reloads,
  and `DefinitionFiles` what a printed file of each type unlocks on.

Code that changes fields, buffers or arrays step by step is a class or a method with loops, proved
equal to a function of the old state; the lemmas are about those functions. Run
`dafny verify dfyconfig.toml` in this directory.

## Where the code differs from what one would expect

The model follows the code in each case, and a theorem says exactly when the expected property holds.

- The rate limit of `N` events per window is a limit of `N + t - 1` when `t` sessions can be between the
  rate check and the record, and no smaller number bounds any relay that accepts events
  (`RateBoundIsLeast`). The limit is kept if and only if there is one session at a time and the window
  does not exceed the clock that the relay starts at, or nothing can be counted (`RateLimitKeptIff`).
- A cap per kind or pubkey is a cap of `cap + t - 1` when `t` sessions can be between the storage check
  and the insertion, as far as the total cap and, for a pubkey, the number of kinds allow; no smaller
  number bounds any relay that accepts events (`ReachIsLeast`). So a cap is kept if and only if there is at
  most one session at a time, the total cap or the kinds leave no room for more, or nothing is ever stored
  (`CapKeptIff`). The total cap is always kept (`TotalCapAndAdmission`).
- `now - window` and `now - created_at` are computed in 64 unsigned bits. With one session at a time the
  limiter answers by its window if and only if the window does not exceed the clock that the relay starts
  at (`WindowFitsClockIff`); as long as the window is larger, one session alone records any number of
  events (`WrappedWindowLimitsNothing`). Pruning drops exactly the stale events of a kind if and only if its TTL
  does not exceed the clock (`PruneIsFreshnessIff`).
- The server issues one `recv` per header field, so a field that arrives in two segments ends the
  session; the client reads each field to the end. `ServerStopsAtFirstSplit` and `ClientFollowsFrames`
  are the two theorems that result, and `CutInHeaderStopsServer` the shortest input: one cut after the
  first byte.
- A stream that ends inside a payload does not stop the frame: it is acted on with made-up bytes
  (`EndInsidePayload`).
- A stream that ends inside an extended length or a mask closes the client's loop without the close
  callback, and the client stays connected; at every other end it reports the close
  (`LoopsActOnReceived`).
- The client takes any answer of at most 4097 bytes with the text 101 in it, and never compares the accept
  key (`ClientSwitchesIff`); with this relay both ends agree all the same (`BothEndsAgree`).
- The handshake's limit of 4096 bytes admits 4097 (`ReadHeadStopsAtBlank`, and `LongestRequest` for the
  inputs at the limit). The relay reads another key than the client's when the request line, or the host
  line before another value, has the key header's name (`KeyAgreementIff`, and `PathHidesKey` for the
  paths). A key header without a space after its colon is found, but the key loses its first character
  (`BareKeyLosesOne`).
- A display name with a quote is saved and loaded as its part before the quote (`SaveLoadRoundTripIff`).
- Verifying a signed event does not compute its identifier again, so an event whose tags or text were
  changed after signing is still verified (`ChangedContentIsVerified`).
- A URL without a scheme is rejected when its path has `://` (`ParseWithoutScheme`), and a port that
  does not fit an `int` is an exception rather than a refusal (`ParseInvertsPrint`).
- A scan rewrites the whole saved file, so it loses the progress of an achievement that is not defined
  at that moment (`ScanKeepsIffDefined`); defined anew, it is locked and can be called back once more
  (`LostIsCalledAgainIff`).
- A criterion can be of a type that a scan checks and still never pass: a `git` criterion without a
  positive `min_commits`, `os_detect` without a lower-case `distro`, `kernel` without `custom: true`, any
  window manager but `tiling`, a display protocol that is not one of three, an empty time window
  (`CanPassIff`).
- One scan can call an id back twice if and only if its criterion can be met and two locked entries have
  the id (`FiresTwiceIff`); for definition files that means two files with one id (`FilesFireTwiceIff`),
  of which `SharedIdFiresTwice` is an example.
- A comment in a definition file begins at the first `#` only, and only after a space or at the start of
  the line, inside quotes as well (`YamlRoundTripIff`).
- The relay answers OK to an EVENT that it did not store: of the answered ones, `HandleEvent` stores
  exactly those that fit.

## Model

| member | source | states |
|---|---|---|
| RelayStore.RelayServer.CheckRateLimit | cpp/lili-relay/src/relay_server.cpp:84-99 | the loop pops exactly the entries older than the wrapped cutoff, for this pubkey only, and answers by the length that is left, cast to `int` |
| RelayStore.RelayServer.RecordEvent | cpp/lili-relay/src/relay_server.cpp:101-104 | appends the current time to the pubkey's deque and changes nothing else |
| RelayStore.RelayServer.CanStoreEvent | cpp/lili-relay/src/relay_server.cpp:106-125 | the counting loops answer exactly whether size, total, kind and pubkey limits all leave room; the store is unchanged |
| RelayStore.RelayServer.StoreEvent | cpp/lili-relay/src/relay_server.cpp:127-135 | the eviction loop drops the oldest events down to one below the cap, and the event becomes the newest |
| RelayStore.RelayServer.SweepEvents | cpp/lili-relay/src/relay_server.cpp:143-153 | erase/remove_if keeps exactly the events that the sweep does not hit, in order |
| RelayStore.RelayServer.PruneOldEvents | cpp/lili-relay/src/relay_server.cpp:137-160 | the sweep of expired events at the current clock, with per-kind TTL and unsigned age |
| RelayStore.RelayServer.DeleteEventsByPubkey | cpp/lili-relay/src/relay_server.cpp:162-178 | the sweep of one pubkey's events |
| RelayStore.RelayServer.DeleteEventById | cpp/lili-relay/src/relay_server.cpp:180-194 | the sweep of the events with one id |
| RelayStore.RelayServer.BanPubkey | cpp/lili-relay/src/relay_server.cpp:80-82 | adds to the banned set only |
| RelayStore.RelayServer.AllowEventKind | cpp/lili-relay/src/relay_server.cpp:72-74 | adds to the allowed set only |
| RelayStore.RelayServer.HandleEvent | cpp/lili-relay/src/relay_server.cpp:234-269 | an EVENT message end to end; it is answered exactly when ban, kind and rate checks pass, and the deque gains it at its end exactly when it is answered and fits, and loses nothing |
| RelayStore.RelayServer.HandleReq | cpp/lili-relay/src/relay_server.cpp:277-330 | the nested filter loops send exactly the answer that `AnswerIsExact` characterises |
| RelayProtocol.UndisturbedSession | cpp/lili-relay/src/relay_server.cpp:234-263 | six steps of one session with none in between are the sequential handler, so the transition system refines it |
| RelayProtocol.SixStepsAreARun | cpp/lili-relay/src/relay_server.cpp:234-263 | those six steps are one of the runs that the theorems are about |
| RelayProtocol.InFlightAfterMove | cpp/lili-relay/src/relay_server.cpp:239-263 | moving one session between program counters changes each in-flight count by that session alone |
| RelayProtocol.RunKeepsLimits | cpp/lili-relay/src/relay_server.cpp:68-82 | over every run limits stay, bans and allowed kinds only grow, and the clock never goes back |
| RelayRateLimit.DequeRefinesHistory | cpp/lili-relay/src/relay_server.cpp:84-104 | in every run the pruned deque is a sorted suffix of all recorded times that lacks nothing in the window, and the rate check answers as a count over the full history |
| RelayRateLimit.PoppedLengthIsWindowCount | cpp/lili-relay/src/relay_server.cpp:90-96 | after popping, the deque's length is the number of recorded times in the closed window |
| RelayTightness.WindowFitsClockIff | cpp/lili-relay/src/relay_server.cpp:87-92 | over all runs with one session at a time between check and record the limiter always answers by the window count if and only if the window does not exceed the clock that the relay starts at |
| RelayTightness.WrappedWindowLimitsNothing | cpp/lili-relay/src/relay_server.cpp:90-92 | while the window exceeds the clock, for every n some run of one session records n events of one pubkey at one instant |
| RelayRateLimit.RateLimitOverRuns | cpp/lili-relay/src/relay_server.cpp:241-262 | in every interleaving with at most t sessions between check and record, no window anywhere holds more than N + t - 1 records of a pubkey |
| RelayTightness.RateLimitIsTight | cpp/lili-relay/src/relay_server.cpp:241-262 | in every relay that accepts events (no limit is zero), for a window of zero or more seconds, every event that only the limits can refuse and every t >= 1, some run with at most t sessions between check and record leaves N + t - 1 records of one pubkey in one window |
| RelayTightness.RateBoundIsLeast | cpp/lili-relay/src/relay_server.cpp:241-262 | in every such relay, for every t >= 1 and b: all runs with at most t sessions between check and record keep every window within b records if and only if the window does not exceed the first clock reading and N + t - 1 <= b |
| RelayTightness.RateLimitKeptIff | cpp/lili-relay/src/relay_server.cpp:84-104 | all runs with at most t sessions between check and record keep N records in every window if and only if t is 1 and the window does not exceed the first clock reading, or t is 0, the window is negative or a limit is zero |
| RelayStorage.CapOverRuns | cpp/lili-relay/src/relay_server.cpp:106-135 | in every interleaving with at most t sessions between storage check and insertion, the stored events of a kind, of a pubkey, of both and in all number at most cap + t - 1 |
| RelayCapTightness.CapIsTight | cpp/lili-relay/src/relay_server.cpp:260-263 | in every relay that accepts events, for every cap per kind or pubkey and every t >= 1, some run with at most t sessions between storage check and insertion stores exactly as many such events as `Reach` says: cap + t - 1, or the total cap, or for a pubkey 65536 times the cap per kind and t - 1 more, whichever is least |
| RelayCapTightness.ReachIsLeast | cpp/lili-relay/src/relay_server.cpp:106-135 | in every such relay, for every b: all runs with at most t sessions in that gap keep within b such events if and only if `Reach` is at most b |
| RelayCapTightness.CapKeptIff | cpp/lili-relay/src/relay_server.cpp:106-135 | all runs with at most t sessions between storage check and insertion keep a cap if and only if t is at most 1, the total cap is no larger, a limit is zero or, for a pubkey, 65536 kinds with t - 1 events over their cap each are not enough to pass it |
| RelayRuns.BarrenOverRuns | cpp/lili-relay/src/relay_server.cpp:84-125 | a relay with a limit of zero or less never stores or records anything |
| RelayStorage.TotalCapAndAdmission | cpp/lili-relay/src/relay_server.cpp:106-135 | in every state of every run, with any number of sessions, the deque is within a total cap of at least 1, and holds only events of an allowed kind and size |
| RelayStorage.NoEvictionWhenAlone | cpp/lili-relay/src/relay_server.cpp:130-132 | with one session at a time in the gap the eviction loop never pops |
| RelayStorage.ConservationOverRuns | cpp/lili-relay/src/relay_server.cpp:127-194 | in every run the accepted events are, with multiplicity, the stored, evicted and swept ones, and the deque is a subsequence of acceptance order |
| RelayStorage.BanThenDeleteIsFinal | cpp/lili-relay/src/relay_server.cpp:80-82 | after ban and delete, whatever runs between and after, the pubkey's stored events number at most the sessions past the ban check at the deletion |
| RelayStorage.PruneIsFreshnessIff | cpp/lili-relay/src/relay_server.cpp:145-152 | pruning drops exactly the stale events of a kind if and only if its TTL does not exceed the clock |
| RelayStorage.PruneTwiceIsPruneOnce | cpp/lili-relay/src/relay_server.cpp:143-153 | pruning at t1 then t2 is pruning at t2, for events dated no later than t1; pruning twice at one instant is pruning once, for any events |
| RelayStorage.PruneByKind | cpp/lili-relay/src/relay_server.cpp:145-152 | of each kind a prune keeps, in order, all events when its entry in the kind map, or the default where it has none, is zero or less, and otherwise exactly those no older than that, the age of an event dated in the future counting from the end of the 64-bit range |
| RelayStorage.DeleteByField | cpp/lili-relay/src/relay_server.cpp:162-194 | deleting by pubkey keeps, in order, the events of other pubkeys, and deleting by identifier those with other identifiers |
| RelayStorage.StoreKeepsNewest | cpp/lili-relay/src/relay_server.cpp:127-135 | after an insertion the event is the newest, before it are the newest of those before, and no more are gone than the total cap asks for |
| RelayStorage.ConversionsWrap | cpp/lili-relay/src/relay_server.cpp:90-94 | the two integer conversions change a number by a multiple of their range only |
| RelayStorage.AnswerIsExact | cpp/lili-relay/src/relay_server.cpp:281-330 | the events sent for a REQ are, in order, those at exactly the matching positions of the deque |
| RelayStorage.AnswerByField | cpp/lili-relay/src/relay_server.cpp:285-307 | a filter with only kinds, only authors or only ids sends, in order, exactly the stored events whose kind, pubkey or identifier is listed; an empty filter sends everything |
| RelayStorage.AnswerByFields | cpp/lili-relay/src/relay_server.cpp:285-307 | a filter with several fields sends the events that every one of its fields sends alone |
| RelayStorage.SelectIsExact | cpp/lili-relay/src/relay_server.cpp:281-330 | the selection that these are stated with takes exactly the positions that satisfy its condition, in order |
| Bytes.XorCycleUndone | cpp/lili-core/src/identity.cpp:117-121 | combining twice with the same repeated key gives the data back, for every length |
| Bytes.XorBit | cpp/lili-core/src/identity.cpp:118-121 | each bit of the exclusive or of two bytes is set exactly when it is set in one of them and not in the other |
| Bytes.XorInPlace | cpp/lili-core/src/identity.cpp:118-121 | the in-place loop over an array is that combination |
| Bytes.FromToBytes | cpp/lili-relay/src/client_session.cpp:146-151 | the readers' big-endian fold undoes the encoders' shifts |
| Frames.EncodeServerFrame | cpp/lili-relay/src/client_session.cpp:186-207 | the relay's encoder, with its shift loop, writes the unmasked frame of section 5.2 of RFC 6455 |
| Frames.EncodeClientFrame | cpp/lili-core/src/ws_client.cpp:269-294 | the client's encoder writes the masked frame, for every mask |
| Frames.HeaderOnWire | cpp/lili-core/src/ws_client.cpp:271-288 | the header byte by byte: final bit and opcode, the length in one, three or nine bytes with the mask bit, and the mask |
| Frames.PayloadOnWire | cpp/lili-core/src/ws_client.cpp:290-291 | each payload byte follows unchanged, or with each bit flipped where the mask byte that is due has it set |
| Streams.ReactByNumber | cpp/lili-relay/src/client_session.cpp:173-181 | by opcode number: 1 is delivered, 8 is answered with an empty 8, 9 with a 10 that has its payload, and nothing else is acted on |
| Segmentation.ShortestForm | cpp/lili-relay/src/client_session.cpp:190-200 | no second byte and extension that announce the same length are shorter than the encoders' |
| Segmentation.FrameReadBack | cpp/lili-core/src/ws_client.cpp:300-343 | a frame of any payload below 2^64 bytes, from either encoder, is read back whole from any cut, with exactly the following bytes left over |
| Segmentation.ClientIgnoresSegmentation | cpp/lili-core/src/ws_client.cpp:235-267 | for every byte stream, well formed or not, the client does the same whatever the cut |
| Segmentation.ClientFollowsFrames | cpp/lili-core/src/ws_client.cpp:300-357 | for every list of frames and every cut the client does exactly what they ask, in order, up to the first close, and reports the close |
| Segmentation.ClientFollowsThen | cpp/lili-core/src/ws_client.cpp:300-357 | the same with any bytes after the frames: they count exactly when no frame is a close |
| Messages.ExactDecodes | cpp/lili-core/src/ws_client.cpp:300-343 | any concatenation of frames, whatever their opcodes, masks and cuts, is decoded to exactly that list with nothing left over |
| Messages.EncodingIsUnambiguous | cpp/lili-core/src/ws_client.cpp:269-294 | no two lists of frames have the same bytes, whatever their masks |
| Messages.ServerDecodes | cpp/lili-relay/src/client_session.cpp:134-171 | the server decodes exactly the frames before the first one with a split header field |
| Messages.FramesReceived | cpp/lili-relay/src/client_session.cpp:132-184 | the client receives exactly the frames sent up to the first close, and the server those of them before the first split one |
| Messages.LoopsActOnReceived | cpp/lili-core/src/ws_client.cpp:300-328 | on every stream both loops do exactly what the frames they decode up to the first close ask, and the client reports a close if and only if one of its frames is a close or fewer than two bytes are left after them |
| Messages.ClientAnswersPings | cpp/lili-core/src/ws_client.cpp:348-355 | the client's replies are one pong per ping with the ping's payload, in order, and a close for the first close |
| Messages.PongsReadBack | cpp/lili-relay/src/client_session.cpp:132-184 | those replies, encoded with any masks and cut in any way, are decoded by the relay to exactly the replies before the first split one, and when there is none the payloads of the received pongs are those of the pings |
| Segmentation.ServerIsPrefixOfExact | cpp/lili-relay/src/client_session.cpp:132-184 | for every byte stream and every cut the server does a prefix of what an exact reader does |
| Segmentation.ServerBreaksIffSplit | cpp/lili-relay/src/client_session.cpp:136-157 | the server gives up on a frame if and only if a segment ends inside its two-byte header, extended length or mask; cuts elsewhere, payload included, do no harm |
| Segmentation.ServerStopsAtFirstSplit | cpp/lili-relay/src/client_session.cpp:132-184 | for every list of client frames, masks and cut the server does exactly what the frames before the first split one ask, up to the first close |
| Segmentation.ServerFollowsThen | cpp/lili-relay/src/client_session.cpp:132-184 | the same with any bytes after the frames: the server goes on with them exactly when no field is split and no frame is a close |
| Messages.ServerDeliversPrefix | cpp/lili-relay/src/client_session.cpp:173-175 | the delivered messages are a prefix of those sent before the first close, and all of them if and only if no text frame lies between the first split one and that close |
| Messages.CutInHeaderStopsServer | cpp/lili-relay/src/client_session.cpp:134-136 | one cut after the first byte makes the server do nothing, and the client everything, for any frames |
| Messages.EndInsidePayload | cpp/lili-relay/src/client_session.cpp:159-181 | when any frames are followed by one cut off in its payload, the client acts on it with made-up bytes, and so does the server unless a header field is split; it is as sent if and only if the missing bytes are the made-up ones |
| Messages.MadeUpIs | cpp/lili-relay/src/client_session.cpp:159-171 | the made-up bytes are zeros, or, when a mask was announced, the bytes of the mask |
| ClientSession.ClientSession.RecvRaw | cpp/lili-relay/src/client_session.cpp:71-76 | one `recv`: takes a nonempty part of the stream's front unless the stream has ended |
| ClientSession.ClientSession.WsSendFrame | cpp/lili-relay/src/client_session.cpp:186-207 | appends the encoded frame to what was sent |
| ClientSession.ClientSession.SendWsText | cpp/lili-relay/src/client_session.cpp:209-213 | sends a text frame only after the handshake and while running |
| ClientSession.ClientSession.ReadPayload | cpp/lili-relay/src/client_session.cpp:159-166 | the chunk loop fills the buffer with what the stream still has and leaves zeros |
| ClientSession.ClientSession.ReadOneFrame | cpp/lili-relay/src/client_session.cpp:134-171 | header, length fold, mask and in-place unmasking together read the frame that the specification reads |
| ClientSession.ClientSession.WsReadLoop | cpp/lili-relay/src/client_session.cpp:132-184 | deliveries and sent bytes are exactly the actions of the specification, and the session stops |
| ClientSession.ClientSession.DoWsHandshake | cpp/lili-relay/src/client_session.cpp:78-130 | reads the request byte by byte, answers 101 with the accept key, 400, or nothing, as the specification says, and leaves the rest of the stream unread |
| ClientSession.ClientSession.Run | cpp/lili-relay/src/client_session.cpp:37-48 | handshake then loop |
| WsClient.WsClient.RawRecv | cpp/lili-core/src/ws_client.cpp:235-267 | the loop returns exactly the bytes asked for, or fails at the end of the stream |
| WsClient.WsClient.WsSendFrame | cpp/lili-core/src/ws_client.cpp:269-294 | appends the frame encoded with a fresh mask |
| WsClient.WsClient.SendText | cpp/lili-core/src/ws_client.cpp:296-298 | sends one text frame with a fresh mask |
| WsClient.WsClient.ReadPayload | cpp/lili-core/src/ws_client.cpp:331-338 | the chunk loop fills the buffer with what the stream still has and leaves zeros |
| WsClient.WsClient.ReadOneFrame | cpp/lili-core/src/ws_client.cpp:301-343 | reads the frame that the specification reads, and tells a short header from another short field |
| WsClient.WsClient.RecvLoop | cpp/lili-core/src/ws_client.cpp:300-357 | deliveries, sent frames and close callbacks are exactly the actions of the specification |
| WsClient.WsClient.WsHandshake | cpp/lili-core/src/ws_client.cpp:181-222 | sends the request with the encoded nonce, reads the response byte by byte and accepts as the specification does |
| Base64.TableIsAlphabet | cpp/lili-relay/src/client_session.cpp:15 | the table is the alphabet of section 4 of RFC 4648 |
| Base64.EncodeLoop | cpp/lili-relay/src/client_session.cpp:14-28 | the three-byte loop computes the encoding of every byte sequence; the client's loop is the same code on 16 bytes |
| Base64.DecodeEncode | cpp/lili-relay/src/client_session.cpp:14-28 | an independent decoder gives every byte sequence back |
| Base64.EncodeDecode | cpp/lili-relay/src/client_session.cpp:14-28 | the encoding is the only text that decodes to its data |
| Base64.EncodeShape | cpp/lili-relay/src/client_session.cpp:17-25 | length 4 * ceil(n / 3), alphabet symbols, then 0, 2 or 1 padding characters |
| Base64.VectorsOfOneGroup | cpp/lili-relay/src/client_session.cpp:14-28 | the test vectors of section 10 of RFC 4648 up to three bytes |
| Base64.VectorOfLastSymbols | cpp/lili-relay/src/client_session.cpp:15 | the last two symbols of the alphabet |
| Base64.VectorsOfTwoGroups | cpp/lili-relay/src/client_session.cpp:14-28 | the longer test vectors |
| Handshake.ReadHeadStopsAtBlank | cpp/lili-relay/src/client_session.cpp:82-88 | for every cut, reading stops exactly at the end of the block and consumes nothing beyond it; more than 4097 bytes are refused |
| Handshake.RequestOnWire | cpp/lili-core/src/ws_client.cpp:198-206 | the client's request byte by byte |
| Handshake.ResponseOnWire | cpp/lili-relay/src/client_session.cpp:115-126 | the relay's welcome byte by byte, with the accept key as the encoded hash of the key and the fixed text |
| Handshake.RefusalOnWire | cpp/lili-relay/src/client_session.cpp:92 | the relay's refusal byte by byte |
| Handshake.RelayGreetsIff | cpp/lili-relay/src/client_session.cpp:85-113 | any block of at most 4097 bytes is welcomed if and only if it has either spelling of the upgrade and a key, and refused otherwise; a longer one is dropped |
| Handshake.BareKeyLosesOne | cpp/lili-relay/src/client_session.cpp:98-106 | a key header without a space after its colon is found too, and the first character of the key is lost |
| Handshake.FindIsByLines | cpp/lili-relay/src/client_session.cpp:98-101 | searching a header name in the request is searching its lines in order |
| Handshake.KeyAgreementIff | cpp/lili-relay/src/client_session.cpp:97-108 | the server extracts the client's key if and only if no earlier line hides it |
| Handshake.ServerWelcomesClient | cpp/lili-core/src/ws_client.cpp:198-208 | for every cut, the relay welcomes the client's request with the client's own key and leaves every frame byte unread, if and only if no earlier line hides the key and the request has at most 4097 bytes |
| Handshake.LongestRequest | cpp/lili-relay/src/client_session.cpp:85-87 | among requests with a host of n letters, welcomed are exactly those of at most 4097 bytes |
| Handshake.PathHidesKey | cpp/lili-relay/src/client_session.cpp:98-106 | for every host and nonce, a path with the key header's name in it makes the relay read another key |
| Handshake.ClientSwitchesIff | cpp/lili-core/src/ws_client.cpp:210-221 | for every block of header lines and cut, the client switches if and only if the block has at most 4097 bytes and the text 101 in it, and then every byte after the block is unread |
| Handshake.ClientAcceptsResponse | cpp/lili-core/src/ws_client.cpp:210-221 | for every digest and cut, the client accepts the relay's response and leaves every frame byte unread |
| Handshake.BothEndsAgree | cpp/lili-relay/src/client_session.cpp:90-129 | whatever the relay was sent, and however its answer is cut, the client that gets the answer switches if and only if the relay welcomed, and then no later byte has been read |
| Text.FindSkipsNothing | cpp/lili-core/src/identity.cpp:158-163 | an occurrence bounds the result of a search, so the search finds the first |
| Text.DecimalRoundTrip | cpp/lili-protocol/src/signing.cpp:60-62 | the decimal text of a number has that value |
| Text.DecimalIsWritten | cpp/lili-protocol/src/signing.cpp:60-62 | the digits are those of the decimal system, and none is a zero before another |
| Text.SignedNumberReads | cpp/lili-core/src/ws_client.cpp:71 | white space, an optional sign and digits up to the first other character are read as that number |
| Text.AtoiOfNumeral | cpp/lili-core/src/passive_scanner.cpp:139-144 | a written 32-bit number is read as itself, and a larger one by the rules for what does not fit |
| Text.HexRoundTrip | cpp/lili-core/src/identity.cpp:35-49 | the hexadecimal loops undo each other on every key |
| Text.HexCharacters | cpp/lili-core/src/identity.cpp:35-49 | the printer writes small letters, and both small and capital letters are read |
| Text.HexByteOfOne | cpp/lili-core/src/identity.cpp:42-49 | what is made of one digit beside another character: it counts alone, after white space or a plus, wrapped after a minus, or not at all |
| Text.KeyToHex | cpp/lili-core/src/identity.cpp:35-40 | the printing loop writes two lower-case digits per byte |
| Text.HexToKey | cpp/lili-core/src/identity.cpp:42-49 | the reading loop fills the array as `strtoul` does digit pair by digit pair, and leaves it alone when the length is wrong |
| Identity.KeyFound | cpp/lili-core/src/identity.cpp:156-160 | the search for a quoted key stops at the first inner piece between quotes that equals it |
| Identity.ExtractedKeys | cpp/lili-core/src/identity.cpp:183-185 | the three hexadecimal values are found in every saved file, whatever the display name |
| Identity.SecretOnDisk | cpp/lili-core/src/identity.cpp:118-136 | the secret key on disk is two small digits for each byte, whose bits are those of the key flipped where the pad has them set |
| Identity.KeysIff | cpp/lili-core/src/identity.cpp:183-195 | any file gives keys if and only if both have 64 digits; the secret one is combined with the pad when that has 64 digits too, and taken as it is when not |
| Identity.StrtoullSaturates | cpp/lili-core/src/identity.cpp:180 | a time that does not fit in 64 bits is read as the largest that does |
| Identity.SpacesSkipped | cpp/lili-core/src/identity.cpp:174-175 | all spaces before the digits are skipped |
| Identity.ExtractedName | cpp/lili-core/src/identity.cpp:197 | the name found is the saved one up to its first quote |
| Identity.ExtractedNumber | cpp/lili-core/src/identity.cpp:168-181 | the creation time is found for every name without quotes, `created_at` included |
| Identity.LoadAfterSave | cpp/lili-core/src/identity.cpp:147-203 | loading a saved identity always restores both keys, and the name up to its first quote |
| Identity.SaveLoadRoundTripIff | cpp/lili-core/src/identity.cpp:123-203 | loading gives the saved identity back if and only if its name has no quote, for every key pair, pad and 64-bit time |
| Identity.LoginRestoresIff | cpp/lili-core/src/identity.cpp:87-115 | logging in with the saved identity's key gives it back under the same condition |
| Identity.LoginIgnoresOthers | cpp/lili-core/src/identity.cpp:105-110 | logging in with another key never takes the saved name or time |
| Identity.LoginWithoutFile | cpp/lili-core/src/identity.cpp:101-110 | logging in without a file that loads gives the default name and the current time |
| Identity.IdentityManager.Save | cpp/lili-core/src/identity.cpp:123-145 | obfuscates a copy of the key in place and writes exactly the printed text, or nothing when the file cannot be opened |
| Identity.IdentityManager.Load | cpp/lili-core/src/identity.cpp:147-203 | the scanner with its arrays and digit loops is the reader function; the current identity changes only on success |
| Identity.IdentityManager.Login | cpp/lili-core/src/identity.cpp:87-115 | the login result, with the current identity changed only on success |
| Identity.IdentityManager.Clear | cpp/lili-core/src/identity.cpp:205-210 | true and no file left, or, when the file exists and cannot be removed, an exception and the file kept |
| Signing.ComputeEventId | cpp/lili-protocol/src/signing.cpp:43-47 | the 64-bit shift loop computes the big-endian number of the first eight hash bytes |
| Signing.EventId | cpp/lili-protocol/src/signing.cpp:43-47 | its eight bytes are the first eight of the hash, none lost to the shifts |
| Signing.SignEvent | cpp/lili-protocol/src/signing.cpp:50-85 | overwrites identifier, pubkey and signature of the event in place, and nothing else |
| Signing.VerifySignature | cpp/lili-protocol/src/signing.cpp:87-122 | length checks, both hexadecimal arrays and the rebuilt text give the specified verdict |
| Signing.VerifiedIff | cpp/lili-protocol/src/signing.cpp:87-122 | a signed event is verified if and only if the scheme accepts its own signature of that text |
| Signing.SignThenVerify | cpp/lili-protocol/src/signing.cpp:50-122 | with a scheme that accepts its own signatures, every signed event is verified |
| Signing.SigningForgets | cpp/lili-protocol/src/signing.cpp:50-85 | signing again, with any key pair, gives what signing once would: the old identifier, key and signature leave no trace |
| Signing.SignedTextInjective | cpp/lili-protocol/src/signing.cpp:97-100 | the signed text determines identifier, time and kind |
| Signing.SignedTextIsLines | cpp/lili-protocol/src/signing.cpp:60-62 | the signed text is three lines: identifier, time and kind in decimal |
| Signing.SignatureCoversNumbers | cpp/lili-protocol/src/signing.cpp:97-121 | when the signature is good for one of the texts that events have, an event under the same key and signature is verified if and only if the three numbers are unchanged |
| Signing.ChangedContentIsVerified | cpp/lili-protocol/src/signing.cpp:87-122 | a signed event with other tags or text is still verified, and its identifier is that of its content if and only if the two hashes begin alike |
| Url.ParseWsUrl | cpp/lili-core/src/ws_client.cpp:46-77 | the parser, working on positions in the whole URL and on output parameters, is the parser function |
| Url.ParseInvertsPrint | cpp/lili-core/src/ws_client.cpp:46-77 | a printed URL gives its parts back for every host, port and path, whatever the path has: `ws` and `http` without TLS and on port 80 unless another is given, `wss` and `https` with TLS and on 443; other schemes are rejected and ports of 2^31 or more throw |
| Url.ParseWithoutScheme | cpp/lili-core/src/ws_client.cpp:55-62 | without a scheme the parts are as after `ws://`, on port 80 unless another is given and without TLS, unless the path has a mark, and then the text is rejected |
| Url.PrintInvertsParse | cpp/lili-core/src/ws_client.cpp:64-76 | every accepted URL has a nonempty host without colons and slashes, a path that begins with a slash and a 32-bit port, and is read the same after printing it in full, if the port is not negative |
| Yaml.ParseAchievementYaml | cpp/lili-core/src/passive_scanner.cpp:59-90 | the `getline` loop with its section state is the fold over the text's lines |
| Yaml.ReadLine | cpp/lili-core/src/passive_scanner.cpp:66-87 | the body of the loop: comment, nesting, key and value of one line |
| Yaml.FeedField | cpp/lili-core/src/passive_scanner.cpp:66-87 | a scalar line binds its key to what the reader makes of the value; after any spaces or tabs it binds its section's key, or nothing outside a section |
| Yaml.FeedComment | cpp/lili-core/src/passive_scanner.cpp:66-68 | a line with nothing but spaces before its comment sign changes nothing |
| Yaml.FeedOther | cpp/lili-core/src/passive_scanner.cpp:70-73 | a line without a colon, or of white space alone, changes nothing |
| Yaml.FeedCarriageReturn | cpp/lili-core/src/passive_scanner.cpp:44-49 | a carriage return at the end of a line without a comment sign makes no difference |
| Yaml.LastLineCounts | cpp/lili-core/src/passive_scanner.cpp:65 | text is cut at its newlines, and a last line without one counts unless it is empty |
| Yaml.DenotesIff | cpp/lili-core/src/passive_scanner.cpp:51-57 | the reader gives a value on one line back if and only if it is readable |
| Yaml.FeedDoc | cpp/lili-core/src/passive_scanner.cpp:63-88 | a document is read binding by binding from any state, so sections do not leak |
| Yaml.ReadNoNewlines | cpp/lili-core/src/passive_scanner.cpp:65-88 | no value read from any text has a newline |
| Yaml.YamlRoundTripIff | cpp/lili-core/src/passive_scanner.cpp:44-90 | a printed document with each name bound once is read as the flat map it says if and only if all its values are readable |
| Checks.Perform | cpp/lili-core/src/passive_scanner.cpp:265-382 | each check, with the loops over the search path and the names looked for, gives the specified answer |
| Checks.CheckBinary | cpp/lili-core/src/passive_scanner.cpp:274-290 | the loop over the search path finds the file if and only if some directory of the path has it |
| Checks.OnPathIff | cpp/lili-core/src/passive_scanner.cpp:280-287 | for every list of directories without colons, the file is found on the search path made of them if and only if one of them has it; an empty name at the end is not looked at |
| Checks.LowerIs | cpp/lili-core/src/passive_scanner.cpp:256 | capital letters become small ones and nothing else changes |
| Checks.MentionsIff | cpp/lili-core/src/passive_scanner.cpp:320-329 | one of the names occurs in the text at some position |
| Checks.CanPassIff | cpp/lili-core/src/passive_scanner.cpp:265-382 | some system passes a check if and only if the settings are as `CanPass` says, for each of the eight types |
| Scanner.PassiveScanner.LoadDefinitions | cpp/lili-core/src/passive_scanner.cpp:98-157 | parses each file, passes over those without an id, merges each achievement with its last saved unlock and replaces the criteria and their settings |
| Scanner.PassiveScanner.Merge | cpp/lili-core/src/passive_scanner.cpp:146-151 | the inner loop takes the last saved entry of the id that is unlocked |
| Scanner.PassiveScanner.ScanNow | cpp/lili-core/src/passive_scanner.cpp:180-223 | the in-place loop unlocks, stamps and calls back exactly the locked achievements whose check passes on the system it sees, and the file becomes what is in memory |
| Scanner.AllPassIsSeen | cpp/lili-core/src/passive_scanner.cpp:183-211 | for every state there are systems on which all checks pass that can, so the outcome that the statements below use is one a scan can find |
| Scanner.StepsTouch | cpp/lili-core/src/passive_scanner.cpp:98-223 | a reload touches neither file nor log, a scan not the criteria, and without persistence no file appears |
| DefinitionFiles.EntryAsPrinted | cpp/lili-core/src/passive_scanner.cpp:121-134 | a printed file with an id gives one entry with its name, description, tier, category and icon, or their defaults |
| DefinitionFiles.AlwaysUnlocks | cpp/lili-core/src/passive_scanner.cpp:192-193 | a printed `always` file is unlocked, stamped, called back and saved by the first scan |
| DefinitionFiles.OtherTypesNever | cpp/lili-core/src/passive_scanner.cpp:192-211 | a printed file of none of the nine types is not |
| DefinitionFiles.OsUnlocks | cpp/lili-core/src/passive_scanner.cpp:265-272 | an `os_detect` file is unlocked if and only if its distro is the system's ID in small letters |
| DefinitionFiles.BinaryUnlocks | cpp/lili-core/src/passive_scanner.cpp:274-289 | a `binary` file if and only if a directory of the search path has the file it names |
| DefinitionFiles.DisplayServerUnlocks | cpp/lili-core/src/passive_scanner.cpp:303-314 | a `display_server` file if and only if its protocol is `wayland`, `x11` or `unknown` and the session is that |
| DefinitionFiles.WindowManagerUnlocks | cpp/lili-core/src/passive_scanner.cpp:316-330 | a `window_manager` file if and only if its class is `tiling` and the desktop's name has one of eleven names in it |
| DefinitionFiles.KernelUnlocks | cpp/lili-core/src/passive_scanner.cpp:332-351 | a `kernel` file if and only if its custom is `true` and the release has one of seven marks in it |
| DefinitionFiles.GitUnlocks | cpp/lili-core/src/passive_scanner.cpp:353-373 | a `git` file that says n if and only if n is positive and there are at least n commits |
| DefinitionFiles.ServicesUnlock | cpp/lili-core/src/passive_scanner.cpp:291-301 | a `services` file that says n if and only if there are at least n active services |
| DefinitionFiles.TimeUnlocks | cpp/lili-core/src/passive_scanner.cpp:375-382 | a `time` file that says a and b if and only if the hour is from a to before b, round midnight when a is the later |
| DefinitionFiles.EntriesInOrder | cpp/lili-core/src/passive_scanner.cpp:112-156 | files with an id give their entries in the order of the files |
| DefinitionFiles.LastCriteriaCount | cpp/lili-core/src/passive_scanner.cpp:153 | of several files with one id the criterion of the last one counts |
| Scanner.ScanKeepsIffDefined | cpp/lili-core/src/passive_scanner.cpp:221 | a scan keeps an achievement's saved progress if and only if it is defined at that moment, and never calls it back again |
| Scanner.ProgressOverRuns | cpp/lili-core/src/passive_scanner.cpp:98-223 | over any run of scans and reloads in which it is defined at each scan, progress is not lost or restamped and its callback does not fire again |
| Scanner.LostIsCalledAgainIff | cpp/lili-core/src/passive_scanner.cpp:98-223 | progress that a scan lost stays lost: defined anew, an achievement can be called back once more if and only if its criterion can be met |
| Scanner.ScanEstablishes | cpp/lili-core/src/passive_scanner.cpp:214-221 | in every state, an unlock in memory after a scan is kept in that sense if and only if all entries of its id agree on it; with one entry they do |
| Scanner.CallsIff | cpp/lili-core/src/passive_scanner.cpp:183-218 | some outcome of the checks makes a scan call an id back if and only if its criterion can be met and an entry of it is locked |
| Scanner.FiresTwiceIff | cpp/lili-core/src/passive_scanner.cpp:183-218 | for every state, some outcome makes a scan call an id back twice if and only if its criterion can be met and two locked entries have the id |
| Scanner.FilesFireTwiceIff | cpp/lili-core/src/passive_scanner.cpp:98-223 | for every list of definition files, loading and scanning can call an id back twice if and only if two files define it and its criterion can be met |
| Scanner.SharedIdFiresTwice | cpp/lili-core/src/passive_scanner.cpp:98-223 | two printed definition files with one id: it is called back twice in one scan, and the file's last stamp is the second |
| Scanner.ScanAllowedIff | cpp/lili-core/src/passive_scanner.cpp:180-223 | a scan keeps log, file and memory consistent about an id under every outcome if and only if it cannot call the id back twice and, after a callback, the id is defined |
| Scanner.NotifiedAtMostOnce | cpp/lili-core/src/passive_scanner.cpp:98-223 | from a fresh scanner and any saved file, over a run with any reloads whose scans meet that condition (`AllAllowed`), an achievement is called back at most once, and file and memory then have the stamp of that call |

## Left out

- The relay's broadcast of an EVENT to the other sessions and its CLOSE message: the first depends on the unsynchronised list of sessions, the second has no effect on the state.
- Unsynchronised access to `sessions_` and `config_`: each read or insertion is one atomic step of the transition system.
- RelayRateLimit.DequeRefinesHistory: the part about answers needs fewer than 2^31 records in the window, because the code casts the deque's size to `int`; the part about contents does not.
- RelayRateLimit.RateLimitOverRuns: needs N + t to be at most 2^31, because of the same cast, and a window that does not exceed the first clock reading, because of the wrap that `WindowFitsClockIff` describes.
- RelayTightness.RateLimitKeptIff: needs N to be zero or more, since no count is below zero.
- RelayTightness.RateBoundIsLeast: needs N + t to be at most 2^31, as `RateLimitOverRuns` does.
- RelayStorage.BanThenDeleteIsFinal: bounds the stored events; it does not bound the messages already delivered to other clients.
- Parsing and printing of JSON, and so the integer conversions of `kind` and `created_at` in a message and the hashed serialisation of an event: events start parsed, and the hash is an arbitrary function of the content.
- OpenSSL: SHA-1, SHA-256 and Ed25519 are arbitrary functions of fixed output length, the latter with the assumption that it accepts its own signatures where a lemma says so; key generation and random bytes are inputs.
- Sockets, `poll`, TLS, SOCKS and name resolution: a connection is a finite list of segments, sends always succeed, and `stop()` does not interrupt a read.
- Memory: a payload of any announced length can be allocated.
- Fragmented messages and reserved bits: the source ignores the bits that mark them, and so does the model.
- Errors other than a missing, unopenable or unremovable file in the identity store, and the directory it lives in.
- Yaml.YamlRoundTripIff: documents are printed with two spaces of indentation and one space after each colon; other layouts that the reader accepts are covered by `ParseAchievementYaml` alone.
- The walk over the directories of definitions: the list of file contents is an input, and a missing directory is an empty list. The type of a criterion is recognised when it is loaded instead of at each scan.
- How a check gets at the system: the distribution, the search path, the session, the kernel, the commits, the services, the hour and the clock are inputs, seen anew by each check, although the scanner keeps the first distribution and display server that it saw. Lower case is that of ASCII, and numbers beyond 64 bits are read as the GNU C library reads them.
- The scanner's thread, and reloading while a scan runs: `load_definitions` takes no lock, and each call is one atomic step here.
- Statistics, progress percentages and default configurations, which would add easy members.
- The desktop interface, the SDK's wrappers, the assembly of client messages and the encryption of private notes.
