# canal: framing, pairing and the loop thread, verified

This project models the Redis proxy *canal* in Dafny and proves what its three connected parts do.

1. **The framer** (`src/resp_parser.cpp`). `RespParser.dfy` has it in its own form: two mutually
   recursive loops and the item functions over a storage of bytes. `Framing.dfy` says what it does
   without recursion. An array header with a positive count is not followed element by element: its
   first "element" is everything up to the end of the buffer, so the result is that of one flat scan.
   `Grammar.dfy` gives the tokens of that scan as a grammar, `Results.dfy` the result and the
   callback texts for every text in its words; `Fragmentation.dfy`, `Cuts.dfy` and
   `Messages.dfy` say what happens when a stream arrives in pieces, `Stalling.dfy` when nothing can
   ever be handed over again; `RespValue.dfy` has RESP2 values and their encoding; `Numbers.dfy` has
   `std::stoi`.
2. **Dispatch and pairing** (`src/tcp_session.cpp`, `include/redis_tcp_client.hpp`,
   `src/tcpClient.cpp`). `Relay.dfy` has the objects `TcpSession`, `RedisClient` and `LoopThread`;
   `Dispatch.dfy` the round robin with its wrapping counters; `Exchange.dfy` what one `onRead` does to
   all connections or sessions; `Pairing.dfy` a state machine of sessions, connections, backends and
   bytes under way; `History.dfy` its state told from the events alone;
   `EndToEnd.dfy` the theorems about its reachable states, `Ordering.dfy` those about the order of
   replies.
3. **The loop thread** (`src/loop_thread.cpp`, `include/loop_thread.hpp`,
   `include/loop_thread_pool.hpp`, `src/tcp_listener.cpp`). `TaskQueue.dfy` has the queue, its lock and
   the eventfd step by step; `Tasks.dfy` the meaning of the messages; `SessionMap.dfy` the map from
   sockets to sessions; `Pool.dfy` the pool.

## Words

A *token* is a complete `+`, `-` or `:` line, a `$` item, or a `*` header with a count of -1 or more.
A *scalar* is any token but a header with a positive count; such a header *opens* an array.
A *segment* is one text that `process_resp` hands to its callback. A text is *complete* when it is a
row of tokens. A *message* is a scalar, or an opening header with a row of tokens behind it.

## Results that differ from what one would expect

The model keeps the code as it is; these are exact conditions for what holds.

- A stream in pieces is reported as in one read exactly when no piece with bytes behind it ends a row
  of tokens in which an array was opened (`Cuts.CutsAgreeExactly`). A stream can be cut anywhere
  exactly when it opens no array or the first header that does ends it (`Cuts.AllCutsAgreeExactly`).
- A request or reply that comes alone in pieces is handed over whole exactly when no piece but the
  last ends on a boundary of its tokens (`Messages.OneMessageExactly`); every array with elements can
  be cut wrongly, behind its header (`Messages.HeaderCutSplits`).
- Several messages in one read are handed over one by one exactly when none but the last is an array
  with elements (`Messages.OneReadExactly`); `Messages.MessagesExactly` is the condition for any
  messages and any pieces.
- `front()` meets an empty queue exactly when the framer makes more texts of the pieces of one
  connection than there were requests on it (`EndToEnd.CrashesExactly`). Backends that answer with
  scalars never bring that about (`EndToEnd.ScalarsNeverCrash`); one answer that is an array with
  elements can, for every request and every such array with bytes behind its header
  (`EndToEnd.ArrayReplyCrashes`). Replies that are messages go to the sessions that asked exactly
  under the condition in `EndToEnd.RepliesGoToOwnersExactly`.
- An array that has come in part, behind its whole header, gets the verdict `Error` and not `Incompleted`
  (`Results.ArrayCutShort`, `Results.ResultExactly`).
- A bulk string is framed as RESP2 says exactly when its payload has no carriage return
  (`RespValue.BulkFrameExactly`). The declared length is only tested for its sign.
- The verdict of the framer is ignored by both `onRead` methods. A connection can hand over anything
  more, now or later, exactly when its buffer is empty or not stalled (`Stalling.LiveExactly`,
  `Stalling.MovesExactly`). It is stalled when the item in which the scan ends is an error, has a lone
  carriage return in its line or payload, or is a header that no more text can make a good one.
- `find_CRLF_index` looks at up to two bytes behind the buffer. `RespParser.ProcessResp` is proved for
  any storage, and `RespParser.OverrunExactly` says when those bytes change its result. `Relay.dfy`
  assumes two bytes that are no line feeds.
- The items parsed and the nesting of `process_resp` are bounded by the length of the buffer
  (`Framing.WorkBound`), the number of its calls is not (`Framing.CallsExactly`, `RespValue.HeaderCalls`).
- With six connections a request can be dropped although one is up; the condition on the number of
  connections and the id counter is `Dispatch.NeverDropsExactly`.
- Choosing loop threads is even over every window exactly when their number divides 2^32
  (`Pool.AlwaysBalancedExactly`).
- An erase can take out a session other than the one that asked for it exactly when the poster of a
  posted erase is not in the map any more and its socket can still get there: it is there already, or no
  `NEW_SESSION` with it is posted and no session with it stands in a queue that is never emptied
  (`SessionMap.MissesExactly`). Two close events before one batch do no harm; one more close event does
  exactly when the map does not hold the session any more and the replies it waits for can still come
  (`SessionMap.CloseDoomsExactly`, `SessionMap.MissIsReached`).
- Over several connections a session can be given the texts for two requests in the wrong order, exactly
  when it stands in the queues of two connections that live (`Ordering.SwapExactly`, for backends that answer
  with scalars; `Ordering.SwapIsReached`). Over one connection the order holds (`Ordering.SingleLinkInOrder`).
- A listener message with text that is no address throws out of its batch: the task is not popped and the rest
  of the batch is lost (`Relay.LoopThread.Handle`, `Relay.LoopThread.ProcessMsg`).
- A task sent before the eventfd exists stays in the queue until another one wakes the loop thread
  (`TaskQueue.NoLostWakeup`); if the eventfd is made first, that never happens (`TaskQueue.AlwaysWoken`).

## Assumptions

- Lengths stay below 2^32, so the 32-bit lengths and `size_t` sums of the code do not wrap.
- `process_resp` calls its callback while it parses; the callback does not touch the buffer, so the
  model collects the texts and makes the calls in the same order behind the parse.
- `bufferevent_write` is an arbitrary answer at each call, to a backend or to a client; making a
  bufferevent succeeds or not, arbitrarily.
- A backend sends any bytes at any time. The theorems that speak of its replies as messages or scalars
  say so in their requirements, and then ask for no more replies than requests.
- A bufferevent that lives keeps its socket number from being given out again, and so does a posted
  `NEW_SESSION` with it. A session lives while the map or the queue of a connection refers to it; the
  queue of a lost connection is never emptied, because nothing connects it again or removes it, and
  neither is that of a connection with a stalled buffer (`Stalling.LiveExactly`).
- The initial value of `_sIdGenerater`, which the constructor leaves unset, is arbitrary.

## Model

| member | source | states |
|---|---|---|
| `Numbers.StoiReadsNumber` | src/resp_parser.cpp:77 | `std::stoi` on any text with a number: white space, sign, digits and junk give the signed value of exactly those digits, or an error outside 32 bits |
| `Numbers.StoiRejectsNoNumber` | src/resp_parser.cpp:79-90 | on every other text it throws |
| `Numbers.StoiDecimal` | src/resp_parser.cpp:73-90 | printing and reading a number gives it back exactly if it fits an `int`; otherwise an error, never a wrapped length |
| `RespValue.Alphabet` | src/resp_parser.cpp:2-6 | the type bytes, CR LF, digits and white space are those of ASCII |
| `RespParser.FindCrlfIsLineEnd` | src/resp_parser.cpp:8-23 | the search finds the line ends of the buffer and the one that the two bytes behind it may add, and its 0 is never a position |
| `RespParser.OverrunExactly` | src/resp_parser.cpp:14-15 | for any storage: `process_resp` returns what the buffer alone gives if and only if the scan reaches its end, or the bytes behind it neither finish nor spoil the item in which the scan stops, or an array was opened before |
| `RespParser.OverrunChanges` | src/resp_parser.cpp:14-22 | every line item without its end in the buffer is completed by a line feed behind its final carriage return, or at distance 1 |
| `RespParser.LineRefines` | src/resp_parser.cpp:25-65 | the three line functions agree with the flat scan's item |
| `RespParser.BulkRefines` | src/resp_parser.cpp:67-118 | `process_bulk` agrees with the flat scan's item, error and unfinished cases included |
| `RespParser.HeaderRefines` | src/resp_parser.cpp:120-155 | what the header of an array means, for every outcome of the search and of `stoi` |
| `RespParser.ProcessArray` | src/resp_parser.cpp:120-178 | at a positive count: completed to the end of the buffer if everything behind scans, else `Error`; also how many items are parsed, how deep calls nest and how many there are; for any storage |
| `RespParser.ProcessItem` | src/resp_parser.cpp:186-216 | the switch on the type byte gives the item's verdict and length |
| `RespParser.ProcessResp` | src/resp_parser.cpp:179-231 | the recursive loops return and report what the closed form says, for any storage; they parse each flat token once, nest once per opening header, and make the calls that `Calls` counts |
| `Results.ResultExactly` | src/resp_parser.cpp:155-231 | result and callback texts for every row of tokens and rest: completed with nothing behind; else `Error` at the first token that opens an array, and without one `Incompleted` or `Error` as the rest is an unfinished item or not |
| `Results.StuckExactly` | src/resp_parser.cpp:25-118 | an item in which the scan stops is `Incompleted` exactly if its line, or the payload line behind its good header, has not ended |
| `Results.OneWay` | src/resp_parser.cpp:182-229 | a text is a row of tokens and a rest that begins with none in one way only |
| `Results.ArrayCutShort` | src/resp_parser.cpp:160-163 | an array cut inside an item behind its whole header gives `Error` and consumes nothing |
| `RespParser.SeenIsRest` | src/resp_parser.cpp:14-15 | with no line feed in the two bytes behind the buffer the closed form is that of the buffer alone |
| `Framing.RespRound` | src/resp_parser.cpp:182-229 | one round of the loop, as a recurrence of the closed form |
| `Framing.WorkBound` | src/resp_parser.cpp:182-229 | at most len/3 + 1 item parses and len/4 + 1 nested calls |
| `Framing.CallsExactly` | src/resp_parser.cpp:157-169 | the calls of `process_resp` are one and the sum of all opened counts if the scan reaches the end, else one and one for each opened array |
| `RespValue.HeaderCalls` | src/resp_parser.cpp:157-169 | a header alone costs a call for each element it announces, up to 2^31 - 1 |
| `Grammar.NextExactly` | src/resp_parser.cpp:25-155 | an item of `n` bytes is read exactly where the grammar has a token of `n` bytes, and opens exactly if it is a positive header |
| `Grammar.NextStable` | src/resp_parser.cpp:8-118 | appended bytes never change a token or an `Error`; only `Incompleted` can change |
| `Grammar.TokensPrefixFree` | src/resp_parser.cpp:8-118 | no token is a proper prefix of another |
| `Grammar.ScanAppend` | src/resp_parser.cpp:182-229 | scanning a longer text passes the tokens of the shorter one and goes on behind them |
| `Grammar.UniqueTokens` | src/resp_parser.cpp:182-230 | a text scans to its end exactly if it is a row of tokens, and then in one way only |
| `Messages.OpenedExactly` | src/resp_parser.cpp:155-171 | an array with elements is a positive header and a row of tokens behind it |
| `Fragmentation.SegmentsAreDrained` | src/resp_parser.cpp:223-230 | per call the segments are non-empty, adjacent and exactly the bytes drained |
| `Fragmentation.NothingLost` | src/tcp_session.cpp:30-66 | over any run the segments and the undrained bytes are the bytes received |
| `Cuts.HarmlessExactly` | src/resp_parser.cpp:160-163 | one cut with bytes behind it changes nothing if and only if it is not on a token boundary or no array was opened before it |
| `Cuts.CutsAgreeExactly` | src/tcp_session.cpp:30-66 | any pieces give what one read gives if and only if none of their cuts with bytes behind them is a harmful one |
| `Cuts.AllCutsAgreeExactly` | src/resp_parser.cpp:157-171 | all ways of cutting a stream agree if and only if it opens no array or its first opening header ends it |
| `Fragmentation.FragmentationLaw` | src/tcp_session.cpp:3-66 | for every fragmentation, the segments are those of the stretches between cuts on token boundaries, each as if read at once |
| `Fragmentation.DrainedOnBoundary` | src/resp_parser.cpp:179-231 | what has been drained always is whole tokens of the stream |
| `Fragmentation.EmptiedExactly` | src/tcp_session.cpp:66 | the buffer is empty at the end exactly if the stream is a row of tokens, for every fragmentation |
| `Fragmentation.ScalarsChunkIndependent` | src/resp_parser.cpp:182-230 | while no array was opened, every fragmentation reports the token list and leaves the same unfinished item |
| `Stalling.PromisingExactly` | src/resp_parser.cpp:73-90 | which unfinished header texts more text can turn into a length of -1 or more |
| `Stalling.ItemStalledExactly` | src/resp_parser.cpp:8-155 | an unfinished item of any type can be finished by more bytes exactly if it is not stalled |
| `Stalling.MovesExactly` | src/tcp_session.cpp:30-66 | a buffer from which nothing was consumed can be made to report something exactly if its scan does not end at a stalled item |
| `Stalling.StalledForever` | include/redis_tcp_client.hpp:29-41 | a stalled buffer keeps all that arrives and is never reported from again |
| `Stalling.LiveExactly` | src/tcp_session.cpp:66 | after any reads a connection can report anything more exactly if its buffer is empty or not stalled |
| `Messages.OneReadExactly` | src/resp_parser.cpp:147-172 | messages in one read are reported one by one exactly if none but the last has elements |
| `Messages.MessagesExactly` | src/tcp_session.cpp:30-66 | for any messages and fragmentation, the exact condition for one segment per message |
| `Messages.OneMessageExactly` | src/tcp_session.cpp:30-66 | one message is one segment exactly if no inner cut is on a token boundary |
| `Messages.ScalarsReported` | include/redis_tcp_client.hpp:29-37 | scalar replies are reported one by one and drained whole, however they are cut |
| `Messages.HeaderCutSplits` | src/resp_parser.cpp:157-171 | a cut behind the header splits every array with elements |
| `RespValue.BulkFrameExactly` | src/resp_parser.cpp:96-107 | a bulk frame is header, declared length and 2 bytes exactly if the payload has no carriage return |
| `RespValue.HeaderExactly` | src/resp_parser.cpp:73-155 | what a bulk or array header with any printed number means: -1, 0 up to 2^31 - 1, negative and too large |
| `RespValue.EncodeIsOneFrame` | src/resp_parser.cpp:120-231 | the encoding of every RESP2 value of any nesting is completed to full length and reported once |
| `RespValue.TokensArePieces` | src/resp_parser.cpp:182-229 | the tokens of an encoded value are its headers and scalars from left to right, bulk strings inside arrays included |
| `Dispatch.CoversExactly` | src/tcp_session.cpp:39-62 | for which numbers of connections and id counters every connection is tried, both ways, with the 16-bit and the 32-bit wrap |
| `Dispatch.PlacedAtFirstWilling` | src/tcp_session.cpp:39-60 | of n % 65536 + 1 probes from the 32-bit counter on, the first whose connection is connected, lives and takes the text gets it, with the session at the end of its queue; the counter moves on by one for each probe |
| `Dispatch.PlacedNowhere` | src/tcp_session.cpp:33-63 | without such a probe, or without connections, nothing is written |
| `Dispatch.SlotIsUp` | src/tcp_session.cpp:46-49 | a request only goes to a connection that is connected and lives |
| `Dispatch.HandedOverExactly` | src/tcp_session.cpp:42-62 | if all are tried, a request is handed over exactly if a connected one accepts it |
| `Dispatch.NeverDropsExactly` | src/tcp_session.cpp:39-63 | the exact condition under which no request is dropped while a connection is up |
| `Relay.Frame` | src/tcp_session.cpp:30 | one parse with a callback: the segments and the drained length of the closed form |
| `Relay.TcpSession.Send` | include/tcp_session.hpp:48-55 | nothing is written without a bufferevent, for a closing session, or when the write is refused |
| `Relay.TcpSession.Retry` | src/tcp_session.cpp:39-63 | the do-while with its 16-bit counter hands the request to the first connection on the round that takes it, or to none |
| `Relay.TcpSession.Dispatch` | src/tcp_session.cpp:30-64 | the callback for one request, an empty connection vector included |
| `Relay.TcpSession.OnRead` | src/tcp_session.cpp:6-71 | the requests of one read are placed in order and the buffer keeps the undrained rest |
| `Relay.TcpSession.HandleEvent` | src/tcp_session.cpp:73-89 | closes the session and posts `DEL_SESSION` with its socket, or nothing in a thread without a loop thread |
| `Relay.RedisClient.Send` | src/tcp_socket.cpp:29-36 | nothing is written without a bufferevent, when closing, or when the write is refused |
| `Relay.RedisClient.Give` | include/redis_tcp_client.hpp:29-35 | one reply goes to the session in front, which is popped even if it is closing |
| `Relay.RedisClient.GiveEach` | include/redis_tcp_client.hpp:29-35 | the replies of one read go to the front of the queue, one session each, up to one that finds the queue empty |
| `Relay.RedisClient.OnRead` | include/redis_tcp_client.hpp:11-42 | frames the buffer, gives the replies, pops as many sessions, drains the rest; asks an empty queue for its front exactly if there are more texts than sessions |
| `Relay.RedisClient.HandleEvent` | src/tcpClient.cpp:36-65 | which events connect and which disconnect for good |
| `Exchange.GivenToOwners` | include/redis_tcp_client.hpp:31-34 | each open session gets exactly the replies at its own places in the queue whose write succeeds, in order |
| `Exchange.AllTaken` | include/redis_tcp_client.hpp:33 | when no write fails these are all the replies at its places |
| `Pairing.EventKeeps` | src/tcp_session.cpp:52-59 | every event in every interleaving keeps the pairing invariant |
| `History.RunTold` | src/tcp_session.cpp:73-76 | in every run, told from the events alone: which sessions there are, which are closing, which connections live and are connected, what came from clients and backends and in which pieces |
| `History.CloseIsFinal` | include/tcp_session.hpp:48-55 | behind its close event a client is sent nothing more, in every continuation |
| `History.LostIsFinal` | src/tcpClient.cpp:39-50 | behind its loss a connection is written nothing and hands nothing on, in every continuation |
| `History.WrittenWhenConnected` | src/tcp_session.cpp:46-58 | a connection is written to only by a request, behind its connected event and not behind its loss |
| `History.ReplyOutcomes` | include/redis_tcp_client.hpp:29-35 | each text of a read goes to the session in front; it is dropped exactly if that has had its close event, else refused exactly if the write fails |
| `History.TakenThenSent` | include/redis_tcp_client.hpp:33 | if every write is taken nothing is ever refused |
| `EndToEnd.HandedToOwners` | include/redis_tcp_client.hpp:29-37 | in every reachable state, whatever the backend sends: the texts handed on are what the framer makes of the pieces read, the k-th went to the owner of the k-th request, and the queue is the owners of all later requests |
| `EndToEnd.CrashesExactly` | include/redis_tcp_client.hpp:31-34 | a read asks an empty queue for its front exactly if the framer makes more texts of all the pieces than there were requests |
| `EndToEnd.RepliesGoToOwnersExactly` | include/redis_tcp_client.hpp:29-37 | for replies that are any messages, arrays included: the k-th reply has gone whole to the owner of the k-th request, for all k, exactly if the pieces keep the replies apart |
| `EndToEnd.RepliesGoToOwners` | include/redis_tcp_client.hpp:29-39 | for scalar replies in every interleaving and fragmentation: the k-th reply went byte for byte to the owner of the k-th request, the others are in the buffer or under way, and with none under way all have been handed on |
| `EndToEnd.ScalarsNeverCrash` | include/redis_tcp_client.hpp:31 | with scalar replies no empty queue is ever asked for its front |
| `EndToEnd.SessionsAreSent` | include/tcp_session.hpp:48-55 | a session was sent what the log says, an open one all that the bufferevent did not refuse; its requests are what the framer makes of the pieces, with no byte lost; each link got those placed there in order |
| `EndToEnd.AllIsSent` | include/redis_tcp_client.hpp:31-34 | without refused writes an open session was sent all its replies, a closing one the first of them |
| `Ordering.SingleLinkInOrder` | src/tcp_session.cpp:52-59 | with one connection the j-th placed request of a session is what the backend was written at its j-th place, and the j-th text it is given is the one for that place; the others are the dropped ones |
| `Ordering.MessagesAreAnswered` | src/tcp_session.cpp:30-66 | with one connection, when both streams come in pieces that keep messages apart, the messages of a client that were not dropped are written whole and the replies it is given are the answers to them, in order |
| `Ordering.SwapExactly` | src/tcp_session.cpp:42-61 | with scalar backends and no further request: a session can be given two texts in the wrong order exactly if it stands in the queues of two live connections |
| `Ordering.SwapIsReached` | src/tcp_session.cpp:45 | for any two one-message requests there is a run over two connections that leads to such a state |
| `EndToEnd.OneExchange` | include/redis_tcp_client.hpp:11-42 | for every one-message request and one-message reply, arrays included, there is a run in which the backend is written exactly the request and the client exactly the reply |
| `EndToEnd.ArrayReplyCrashes` | include/redis_tcp_client.hpp:31-34 | for every request and every array reply with bytes behind its header there is a run with one request and one reply that asks an empty queue for its front |
| `EndToEnd.PlacedAsForwarded` | src/tcp_session.cpp:30-64 | the state machine places requests as the object method does |
| `EndToEnd.RepliesAsRead` | include/redis_tcp_client.hpp:11-42 | the state machine changes the connection and the sessions on a read of replies as the object method does |
| `Tasks.BatchingDoesNotMatter` | src/loop_thread.cpp:8-20 | any division into batches ends in the state of handling tasks one at a time |
| `Tasks.SessionsMean` | src/loop_thread.cpp:26-83 | a socket has a session exactly if a task opened it, or it was there, and no later task dropped it |
| `Tasks.ConnsMean` | src/loop_thread.cpp:84-125 | the connections are those asked for in well-formed messages of a known kind, in order; the loop stops exactly on an exit message |
| `Tasks.ListenersMean` | src/loop_thread.cpp:47-65 | the listeners are those asked for in well-formed messages, in order |
| `Tasks.MadeMean` | src/loop_thread.cpp:41-44 | what the map holds under a socket was made by the last message about it, or was there before |
| `Tasks.MadeCount` | src/loop_thread.cpp:104-117 | each session and each connection is made by a message of its own |
| `Relay.LoopThread.Send2LoopThread` | include/loop_thread.hpp:43-54 | queues first, then signals if there is an eventfd |
| `Relay.LoopThread.Stop` | include/loop_thread.hpp:23-38 | closes the eventfd once |
| `Relay.LoopThread.OnAccept` | src/tcp_listener.cpp:8-16 | a new session stands in the map under the accepted socket, open if its bufferevent could be made |
| `Relay.LoopThread.Handle` | src/loop_thread.cpp:22-135 | every kind of message, bodies of the wrong type and unknown connection kinds included; each path removes exactly one task, but for a listener whose address text throws, which removes none; a new session or connection has a bufferevent if one could be made |
| `Relay.LoopThread.HandleAll` | src/loop_thread.cpp:20-136 | tasks are handled once each and in order up to the first that throws; map, connections and listeners are the fold over them, with new objects for new sessions and distinct connections |
| `Relay.LoopThread.ProcessMsg` | src/loop_thread.cpp:5-137 | the whole queue is swapped out and handled so; behind an exception the rest of the batch is lost |
| `Relay.LoopThread.EvfcCb` | src/loop_thread.cpp:199-217 | a counter of 0 does nothing; otherwise it is cleared and the whole queue handled, up to a task that throws |
| `TaskQueue.StepKeeps` | include/loop_thread.hpp:43-54 | every step of a producer or of the loop thread keeps the wakeup invariant |
| `TaskQueue.RunTold` | include/loop_thread.hpp:43-54 | in every run, told from the events alone: which tasks were pushed and how many handled, whether there is an eventfd, and which producers looked for it and found none |
| `TaskQueue.NoLostWakeup` | src/loop_thread.cpp:199-212 | a waiting task has someone awake for it, or a producer looked before `init` since the last swap; a quiet state has an unhandled task exactly then |
| `TaskQueue.AlwaysWoken` | include/loop_thread.hpp:47-52 | with the eventfd made first every producer finds it, a waiting task always has someone awake for it, and a quiet state has handled all tasks ever sent |
| `TaskQueue.ExactlyOnceInOrder` | src/loop_thread.cpp:8-20 | done, batch, queue and the task in hand together are the tasks sent, in order, and the loop state is the fold over what is done |
| `TaskQueue.EverythingIsHandled` | src/loop_thread.cpp:20-136 | from every reachable state the producer with the lock gets to release it and the loop thread to handle all tasks |
| `SessionMap.BatchIsFold` | src/loop_thread.cpp:10-136 | handling all posted messages changes the map as the fold over the messages says |
| `SessionMap.StepKeeps` | src/tcp_session.cpp:73-84 | with one close event per session every event keeps the map live, erases matched and open sessions found |
| `SessionMap.RunTold` | src/tcp_session.cpp:73-84 | in every run, told from the events alone: the sessions in order, what is posted, and which sessions are closing, stuck, or wait for how many replies |
| `SessionMap.ErasesHitTheirPoster` | src/loop_thread.cpp:67-83 | with one close event per session no erase can take out a wrong session, and a batch takes exactly the sessions out of the map that posted an erase in it |
| `SessionMap.MissesExactly` | src/loop_thread.cpp:10-83 | with any number of close events, batch by batch: some erase can still take out a session that did not post it exactly if the poster of a posted erase is out of the map and its socket can still get there |
| `SessionMap.UnmappedPosterExactly` | src/loop_thread.cpp:67-83 | without posted `NEW_SESSION` and stuck sessions the condition is a posted erase whose poster is not in the map |
| `SessionMap.CloseDoomsExactly` | src/tcp_session.cpp:73-84 | from a state that cannot miss, one more close event of a session makes it possible exactly if the map does not hold the session any more and it does not stand in a queue that is never emptied |
| `SessionMap.MissIsReached` | src/loop_thread.cpp:81 | for every socket number there is a run to a batch that takes out a session that has not closed |
| `Pool.LoopThreadPool.GetLoopThread` | include/loop_thread_pool.hpp:94-99 | advances the 32-bit index and picks by it |
| `Pool.LoopThreadPool.SendToAll` | include/loop_thread_pool.hpp:86-93 | every loop thread gets the message once |
| `Pool.LoopThreadPool.AddLoop` | include/loop_thread_pool.hpp:100-104 | appends a loop thread |
| `Pool.BalancedWithoutWrap` | include/loop_thread_pool.hpp:94-99 | over m calls without a wrap each of n threads is chosen m/n times, rounded down or up |
| `Pool.AlwaysBalancedExactly` | include/loop_thread_pool.hpp:94-99 | over every window, wraps included, exactly if n divides 2^32 |

## Left out

- libevent, sockets, addresses and DSCP: foreign input and output; an input buffer is a byte string.
- Logging, build files, examples and tests: nothing to model.
- Thread creation and the start-up polling of the pool: the task queue begins before `init` instead.
- The window in `init` between setting `_evfd` and making `_event_client_sptr` (src/loop_thread.cpp:153-173): a producer in it passes the test of `_evfd` and calls `send` on a null pointer; `TaskQueue.dfy` makes both in one step.
- A bufferevent that cannot be made for a session: `Relay.dfy` has it; in `Pairing.dfy` and `SessionMap.dfy` such a session gets no events, so it is not there.
- The exception of `listen` (include/tcp_listener.hpp:21, called outside any `try` at src/loop_thread.cpp:63) beyond `process_msg`: what becomes of the event loop is up to libevent. `TaskQueue.dfy` and `SessionMap.dfy` have no exceptions.
- What the code does behind `front()` of an empty queue: it is undefined, and the model stops.
- The lock as an object: `TaskQueue.dfy` has it as a step of its own; `LoopThread` has the bodies of the critical sections only.
- Writing to an eventfd that `stop` closes meanwhile: the wakeup theorems end at the exit message.
- `CONN_INFO` beyond kind, address, port and path, and the connect calls by kind: only foreign calls differ.
- `DEL_LISTENER` and `DEL_CONN`: the code does nothing for them, and the model does nothing.
- `reconnect`, `disConnect` and `TcpSocket::close`: nothing in the repository calls them.
