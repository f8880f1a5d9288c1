# A WebSocket client, its codecs, a pipeline and a message loop

This project models four parts of a C++ repository and proves what they keep, deliver and
give back, for all inputs and all runs.

**The WebSocket session** (RFC 6455, over libevent). `SessionState` says what each
operation does to a session, as functions on values: the sending half (`Out`), the
receiving half (`In`), and the input as a byte sequence. `Client.Session` is the object
itself; each of its methods, loops included, is proved to do what those functions say. On top of
them: the frames a send writes (`Sender`), reading in pieces (`Receiver`, `Streams`),
message reassembly (`Delivery`), forbidden input (`Violations`), exact conditions
(`ExactConditions`, `AsWrittenBuild`), one session sending to another (`EndToEnd`), sends
between reads (`Interleaving`), the closing handshake (`ClosingHandshake`), the opening
handshake (`OpeningHandshake`, `HandshakeExact`, `HandshakeChunks`), runs of all operations in
any order (`SessionRuns`), and handshake and frames together (`WholeSessions`). Random keys,
buffer writes and timers succeed or fail as an arbitrary function of how often they were
asked (`Env`); SHA-1 and the parsing of a status line and of a header line are parameters
(`Config`).

**Codecs beside it**: header packing (`FrameHeader`), masking (`Masking`), the UTF-8 automaton
(`Utf8`), Base64 (`Base64`) and certificate host names (`HostCheck`).

**The pipeline**: the class (`PipelineCore`) and every interleaving of its atomic steps over
any number of threads and continuation objects (`PipelineRuns`).

**The message loop**: the task queues (`TaskQueueCore`), their runs (`TaskQueueRuns`) and the
loop with flushes, observers and termination (`MessageLoops`). What a callback does is a
parameter.

## Choices where the text of the program and its intent differ

- The header structure declares a seven-bit payload length; the code around it is written for
  64 bits. Both widths are modelled (`LenField`), and the difference is stated exactly
  (`RoundTripExact`, `EndToEndIntended` against `EndToEndLiteral`).
- The continuation guard refuses continuations inside a message, its own log message says
  outside. Both are modelled (`Guard`); `WrittenGuardExact` and `NeverDelivered` say what the guard
  as written does.
- Three checks on the connection state contradict one another
  (src/net/ws_cli/implement/ev/session_impl_ev.cpp:620, :717 and :767); all three are read as
  "connected", since otherwise no fragmented send could go on.
- The frame size limit has no setter; it is a parameter.
- The text check reads a field `msgIsBinary` that nothing sets; it is read as `msgIsBinary_`.
- The text check runs on every read, unmasking restarts with every read, a header's key bytes
  are not waited for, and sending and receiving share one header. These are modelled as
  they are, and `CutExact`, `MaskRestartExact`, `NeedMoreExact` and `SendInsideFrame` give the
  exact conditions.
- The header checks leave out four rules of RFC 6455; `HeaderExact` says which headers pass
  because of that, and a lemma beside it gives one for each rule.
- A callback is any function of the time of the flush and of the number of calls made before,
  so no two calls need be alike; other threads act between wake-ups.
- A continuation is emptied when its commit begins, in the program when the commit returns.
  That no reservation makes two attempts rests on no two threads using one continuation
  object at once, which the program leaves to its callers.
- A close frame without a body is answered with an empty string read at the length of an
  earlier reason; the bytes behind the terminator are arbitrary (`Env.stale`).
- A close frame of 125 bytes makes the program write a terminator one place behind its control
  buffer. The model reads the reason by its length and has no such write, so its echo
  theorem covers 2 to 125 bytes.
- When the connection is shut down while it is being read, its input goes with it and the
  model's loop stops; the program would go on with the freed buffer. After a failed handshake
  reply the program goes on into the frame reader, where its own check on the
  connection fails; the model stops there.
- The value of `Sec-WebSocket-Accept` is compared without regard to case, as the program does.
- The branch of `GetNextTaskToRun` that asks for the latest possible wake-up cannot be reached
  and is left out; so is `WakeUp` itself beyond the time it was last given.
- Integers in memory are those of a little-endian host. Bytes are the integers 0 to 255.
- The UTF-8 table is written as runs of byte classes and a transition matrix; both parts of the
  program's table have the same entries.
- Fields that the constructor of the session leaves unset start at zero.

## Model

| member | source | states |
|---|---|---|
| `Masking.MaskPayload` | src/net/ws_cli/implement/ev/session_impl_ev.cpp:41-52 | masks a stretch of a buffer in place: byte i is combined with byte i modulo 4 of the key; bytes outside are untouched |
| `Masking.MaskAt` | src/net/ws_cli/implement/ev/session_impl_ev.cpp:41-52 | the same of the specification, down to the bits: each is the sum modulo 2 of the bits of payload and key byte |
| `Masking.MaskedHello` | src/net/ws_cli/implement/ev/session_impl_ev.cpp:41-52 | the masked "Hello" of section 5.7 of RFC 6455, as literal bytes |
| `Bytes.XorFromBits` | src/net/ws_cli/implement/ev/session_impl_ev.cpp:50 | the exclusive or of two numbers given by their bits is the number of the bits' sums modulo 2 |
| `Masking.MaskInvolutive` | src/net/ws_cli/implement/ev/session_impl_ev.cpp:54-57 | unmasking is masking again: it gives the payload back |
| `Masking.MaskAligned` | src/net/ws_cli/implement/ev/session_impl_ev.cpp:1527-1529 | unmasking a payload in two reads, restarting the key each time, is right when the first read is a multiple of four |
| `Masking.MaskRestartExact` | src/net/ws_cli/implement/ev/session_impl_ev.cpp:1527-1529 | and in general it is right if and only if the key bytes met by the two rotations coincide |
| `Masking.MaskUnchanged` | src/net/ws_cli/implement/ev/session_impl_ev.cpp:41-52 | masking leaves bytes unchanged if and only if the key bytes they meet are zero |
| `FrameHeader.PackHeaderFirstByte` | src/net/ws_cli/ws_header.cpp:19-36 | writes FIN, the reserved bits and the opcode into byte 0 and nothing else |
| `FrameHeader.PackHeaderRest` | src/net/ws_cli/ws_header.cpp:38-100 | writes mask bit, length and key in the wire format of section 5.2 of RFC 6455; leaves byte 0 and the bytes behind alone |
| `FrameHeader.PackHeader` | src/net/ws_cli/ws_header.cpp:103-106 | the buffer starts with exactly the header's wire format, and the reported length is its size |
| `FrameHeader.ShortestForm` | src/net/ws_cli/ws_header.cpp:70-92 | the length form chosen can express the length, and no form that can is shorter |
| `FrameHeader.UnpackInverts` | src/net/ws_cli/implement/ev/session_impl_ev.cpp:816-868 | unpacking packed bytes followed by anything gives back every field and the header length, the length cut to the field's width |
| `FrameHeader.RoundTripExact` | src/net/ws_cli/ws_types.h:79 | a header survives the round trip if and only if its length fits the declared field: below 128 as written, always with 64 bits |
| `FrameHeader.NeedMoreExact` | src/net/ws_cli/implement/ev/session_impl_ev.cpp:822-865 | a prefix of a header is found incomplete if and only if it stops before the end of the length field; the four key bytes are not waited for |
| `FrameHeader.EncodeN2H64SelfInverse` | src/net/ws_cli/util.cpp:77-95 | the 64-bit byte swap is its own inverse and stays within 64 bits |
| `FrameHeader.EncodeN2H64At` | src/net/ws_cli/util.cpp:77-91 | byte i of the swapped value in memory is the input shifted right by 56 - 8i bits |
| `Utf8.RunAccepts` | src/net/ws_cli/implement/ev/utf8_utils.cpp:16-43 | from every state, the table accepts exactly the byte strings that complete the started character and go on well-formed |
| `Utf8.AcceptExact` | src/net/ws_cli/implement/ev/utf8_utils.cpp:57-78 | validation ends in ACCEPT if and only if the bytes are well-formed by section 4 of RFC 3629 |
| `Utf8.RejectExact` | src/net/ws_cli/implement/ev/utf8_utils.cpp:57-78 | and in REJECT if and only if no extension of them is well-formed |
| `Utf8.RunConcat` | src/net/ws_cli/implement/ev/utf8_utils.cpp:64-77 | validating a concatenation is validating the parts in turn |
| `Utf8.ValidateUtf8` | src/net/ws_cli/implement/ev/utf8_utils.cpp:57-78 | the loop with its early exit computes the same state as running the table over everything |
| `Utf8.DecodeUtf8` | src/net/ws_cli/implement/ev/utf8_utils.cpp:45-55 | one decoder step: next state and accumulated code point, with 32-bit wrap-around |
| `Utf8.EncodingRun` | src/net/ws_cli/implement/ev/utf8_utils.cpp:45-55 | inside an encoded scalar value the decoder neither accepts nor rejects; at its end it accepts with exactly that value |
| `Utf8.DecodeInvertsEncode` | src/net/ws_cli/implement/ev/utf8_utils.cpp:45-55 | decoding the concatenated encodings of any scalar values gives those values, accepting at each one |
| `Utf8.EncodeInvertsDecode` | src/net/ws_cli/implement/ev/utf8_utils.cpp:45-55 | every well-formed string is the encoding of the scalar values the decoder reads in it |
| `Utf8.EncodingsExact` | src/net/ws_cli/implement/ev/utf8_utils.cpp:57-78 | so validation accepts exactly the encodings of sequences of scalar values |
| `Base64.EncodeBase64` | src/net/ws_cli/implement/ev/base64.cpp:20-54 | the loop and its two tails compute the group-by-group encoding of section 4 of RFC 4648 |
| `Base64.GroupValue` | src/net/ws_cli/implement/ev/base64.cpp:20-54 | four characters are, in base 64, the number that their three bytes are in base 256 |
| `Base64.TestVectors` | src/net/ws_cli/implement/ev/base64.cpp:20-54 | test vectors of section 10 of RFC 4648 as literals |
| `Base64.EncodedLength` | src/net/ws_cli/implement/ev/base64.cpp:20-54 | the number of four-character groups is a third of the length, rounded up |
| `Base64.FindExact` | src/net/ws_cli/implement/ev/base64.cpp:68-71 | the alphabet look-up finds the position of a character, and 255 exactly for characters outside the alphabet |
| `Base64.EnoughExact` | src/net/ws_cli/implement/ev/base64.cpp:62-66 | the strings the decoder reads without leaving them: at least the padding, and with one padding character not one more than a multiple of four |
| `Base64.DecodeBase64` | src/net/ws_cli/implement/ev/base64.cpp:56-93 | the decoding loop and tails compute the group-by-group decoding |
| `Base64.DecodeInvertsEncode` | src/net/ws_cli/implement/ev/base64.cpp:20-93 | decoding the encoding of any non-empty byte string gives it back |
| `Base64.EncodeInvertsDecodeExact` | src/net/ws_cli/implement/ev/base64.cpp:20-93 | encoding what was decoded gives the string back if and only if it is canonical (section 3.5 of RFC 4648) |
| `HostCheck.EqualExact` | src/net/http_cli/implement/ev/host_check.cpp:10-66 | comparing in upper case decides whether two strings agree at every position but for the case of an ASCII letter |
| `HostCheck.RawEqual` | src/net/http_cli/implement/ev/host_check.cpp:79-92 | the pointer loop decides whether the strings have one length and at every position the same character, or one ASCII letter in two cases |
| `HostCheck.RawNEqual` | src/net/http_cli/implement/ev/host_check.cpp:94-108 | and for the first characters only, with the early end of a string |
| `HostCheck.EligibleExact` | src/net/http_cli/implement/ev/host_check.cpp:122-138 | a wildcard counts if and only if it stands before two dots, in the first label, and the pattern does not start like xn-- |
| `HostCheck.AgreementExact` | src/net/http_cli/implement/ev/host_check.cpp:142-158 | comparing label by label decides whether some non-empty dot-free text in place of the wildcard makes host and pattern equal |
| `HostCheck.HostMatch` | src/net/http_cli/implement/ev/host_check.cpp:119-159 | an eligible wildcard pattern matches by that rule, any other by equality |
| `HostCheck.CertHostCheck` | src/net/http_cli/implement/ev/host_check.cpp:161-173 | true if and only if both strings are non-empty and equal but for case or matched by the rule of section 6.4.3 of RFC 6125 |
| `PipelineCore.Pipeline.constructor` | src/pipeline/pipeline.h:81-82 | all slots free, nothing queued or announced |
| `PipelineCore.Pipeline.Produce` | src/pipeline/pipeline.h:88-114 | takes a slot and hands out a bound continuation with a new trace id, or one that does nothing when no slot is free |
| `PipelineCore.Pipeline.ProducerCommit` | src/pipeline/pipeline.h:158-167 | queues and announces the resource |
| `PipelineCore.Pipeline.ProducerCommitIfEmpty` | src/pipeline/pipeline.h:169-184 | does so if and only if the queue is empty, and otherwise frees the slot |
| `PipelineCore.Pipeline.Consume` | src/pipeline/pipeline.h:119-148 | takes the oldest resource and frees its slot, and tells whether more than that one were queued; without consumer or announced item nothing changes. That the queue is then not empty is PopNeverEmpty |
| `PipelineCore.ProducerContinuation.Move` | src/pipeline/pipeline.h:38-42 | the new continuation has everything, the old one nothing |
| `PipelineCore.ProducerContinuation.Assign` | src/pipeline/pipeline.h:44-48 | the two continuations are exchanged, bound or not, of one pipeline or of two |
| `PipelineCore.ProducerContinuation.Complete` | src/pipeline/pipeline.h:56-63 | a bound continuation commits once and is empty afterwards; an empty one does nothing |
| `PipelineCore.ProducerContinuation.Destroy` | src/pipeline/pipeline.h:50-54 | a continuation still bound commits the null resource |
| `PipelineRuns.StepInv` | src/pipeline/pipeline.h:88-184 | every atomic step of every thread keeps: depth = free slots + slots held by threads and continuations + queue; queue = announced + not yet announced + claimed; the in-flight count; first in first out; one attempt per reservation |
| `PipelineRuns.ReachedInv` | src/pipeline/pipeline.h:88-184 | so these hold in every state any interleaving reaches |
| `PipelineRuns.BoundedQueue` | src/pipeline/pipeline.h:81-82 | the queue never outgrows the depth, and no more is announced than queued |
| `PipelineRuns.PopNeverEmpty` | src/pipeline/pipeline.h:124-137 | a consumer that passed the semaphore never finds the queue empty |
| `PipelineRuns.ConsumedInOrder` | src/pipeline/pipeline.h:133-141 | what was consumed is a prefix of what was committed |
| `PipelineRuns.AtMostOnce` | src/pipeline/pipeline.h:34-79 | no reservation makes more than one commit attempt, through any moves, swaps, completions and destructions |
| `PipelineRuns.QuietBalance` | src/pipeline/pipeline.h:88-148 | when no thread is inside a call and no continuation is bound, every reservation was attempted exactly once, and the counters balance; the in-flight counter exceeds the queue by the number of if-empty bails |
| `PipelineRuns.IfEmptyGoesAlone` | src/pipeline/pipeline.h:169-184 | an if-empty commit goes in if and only if everything committed was consumed, and is then alone |
| `PipelineRuns.CompleteIsRun` | src/pipeline/pipeline.h:56-63 | an uninterrupted completion is a run of atomic steps and ends in the state the method promises |
| `PipelineRuns.ConsumeIsRun` | src/pipeline/pipeline.h:119-148 | so is an uninterrupted consume |
| `TaskQueueCore.OrderKeyExact` | src/wtf/task_runner/message_loop_task_queues.h:98 | the order keys, a 32-bit counter widened to `size_t`, compare as the counts do modulo 2^32 |
| `TaskQueueCore.GreaterIsStrictOrder` | src/wtf/task_runner/delayed_task.cpp:23-28 | the comparison is a strict weak order, and total on the first 2^32 registrations |
| `TaskQueueCore.InsertExact` | src/wtf/task_runner/message_loop_task_queues.cpp:33-40 | adding an observer keeps the keys ascending and replaces exactly the observer with that key |
| `TaskQueueCore.TaskQueues.CreateTaskQueue` | src/wtf/task_runner/message_loop_task_queues.cpp:42-49 | a new empty queue under the next id |
| `TaskQueueCore.TaskQueues.PeekNextTask` | src/wtf/task_runner/message_loop_task_queues.cpp:132-139 | a pending task that none is due before |
| `TaskQueueCore.TaskQueues.RegisterTask` | src/wtf/task_runner/message_loop_task_queues.cpp:141-156 | a new task is pending with the next order number, and the wakeable is asked for the earliest target; other queues are untouched |
| `TaskQueueCore.TaskQueues.GetNextTaskToRun` | src/wtf/task_runner/message_loop_task_queues.cpp:82-104 | wakes for what is on top; takes it out and returns it if it is due, else returns nothing |
| `TaskQueueCore.TaskQueues.DisposeTasks` | src/wtf/task_runner/message_loop_task_queues.cpp:62-67 | the queue is empty, all else as before |
| `TaskQueueCore.TaskQueues.SetWakeable` | src/wtf/task_runner/message_loop_task_queues.cpp:158-165 | sets the wakeable, which the program allows only once |
| `TaskQueueCore.TaskQueues.AddTaskObserver` | src/wtf/task_runner/message_loop_task_queues.cpp:33-40 | adds or replaces the observer under the key |
| `TaskQueueRuns.TasksConserved` | src/wtf/task_runner/message_loop_task_queues.cpp:62-156 | in every run, as multisets, the registered tasks are the pending, the returned and the disposed ones |
| `TaskQueueRuns.ReturnedOnce` | src/wtf/task_runner/message_loop_task_queues.cpp:82-104 | so no task is returned twice, or is still pending after it was returned |
| `TaskQueueRuns.TaskOrder` | src/wtf/task_runner/message_loop_task_queues.cpp:82-156 | in every run, a task registered before another and due no later was returned before it or disposed of |
| `TaskQueueRuns.EarlyRegistrations` | src/wtf/task_runner/message_loop_task_queues.h:98 | that ordering covers every pair among the first 2^32 registrations |
| `TaskQueueRuns.OvertakingExact` | src/wtf/task_runner/message_loop_task_queues.h:98 | in every run, of two pending tasks due at the same time the queue may return the later one first if and only if nothing else is before it and its count modulo 2^32 is not larger |
| `TaskQueueRuns.OvertakenRun` | src/wtf/task_runner/message_loop_task_queues.h:98 | and there is a run in which that happens: 2^32 registrations apart |
| `TaskQueueRuns.NoLostWakeup` | src/wtf/task_runner/message_loop_task_queues.cpp:82-122 | after every run, a queue with pending tasks has been asked to wake no later than its earliest target if and only if its wakeable was not set over tasks already pending and not woken since |
| `TaskQueueRuns.VainAskWakesExactly` | src/wtf/task_runner/message_loop_task_queues.cpp:82-104 | in every run, a queue that was asked when it had only tasks for later has its wake-up at exactly its earliest target until something else is done to it |
| `TaskQueueRuns.ReservedIdHides` | src/wtf/task_runner/message_loop_task_queues.cpp:112-122 | a queue with the reserved id never returns a task |
| `TaskQueueRuns.IdsBelowCounter` | src/wtf/task_runner/message_loop_task_queues.cpp:42-49 | and no queue has it until that many queues were created |
| `MessageLoops.MessageLoop.constructor` | src/wtf/task_runner/message_loop_impl.cpp:29-35 | a loop with its own new queue, woken through itself |
| `MessageLoops.MessageLoop.PostTask` | src/wtf/task_runner/message_loop_impl.cpp:98-109 | registers a task, or does nothing once terminated |
| `MessageLoops.MessageLoop.DoTerminate` | src/wtf/task_runner/message_loop_impl.cpp:70-74 | sets the flag and changes nothing else |
| `MessageLoops.MessageLoop.FlushTasks` | src/wtf/task_runner/message_loop_impl.cpp:76-96 | turn by turn, runs the first of the due tasks and then all observers, until one ran or nothing is due; then the wake-up is at exactly the earliest target left. A full flush is one that comes to an end |
| `MessageLoops.MessageLoop.RunExpiredTasksNow` | src/wtf/task_runner/message_loop_impl.cpp:111-114 | a flush that comes to an end leaves only tasks for later, calls what its turns call and nothing else, and wakes for exactly the earliest target; it runs exactly the tasks due at its start, once each, if and only if nothing posted during it was due, and then in (target, order) order |
| `MessageLoops.MessageLoop.RunSingleExpiredTaskNow` | src/wtf/task_runner/message_loop_impl.cpp:116-119 | runs one due task that none is due before, or finds none due, whatever callbacks post |
| `MessageLoops.FlushExact` | src/wtf/task_runner/message_loop_impl.cpp:76-96 | whatever callbacks do: a completed flush ran exactly the tasks due at its start if and only if nothing posted during it was due, and then in order |
| `MessageLoops.SettlingEnds` | src/wtf/task_runner/message_loop_impl.cpp:76-96 | a flush during which nothing due is posted ends after as many turns as tasks were due |
| `MessageLoops.TerminatedSettles` | src/wtf/task_runner/message_loop_impl.cpp:56-68 | so does every flush of a terminated loop: nothing can be posted to it |
| `MessageLoops.RunOneLog` | src/wtf/task_runner/message_loop_impl.cpp:86-91 | a turn runs its task and then every current observer once, in ascending key order |
| `MessageLoops.RunAllLog` | src/wtf/task_runner/message_loop_impl.cpp:82-96 | a flush calls what its turns call, in order, and the tasks among that are exactly those of its turns |
| `MessageLoops.SelfPostingNeverDrains` | src/wtf/task_runner/message_loop_impl.cpp:76-96 | a flush need not end: when what is due posts itself for now, then for every n there are n turns after which something is still due |
| `MessageLoops.SelfPostingNeverEnds` | src/wtf/task_runner/message_loop_impl.cpp:76-96 | so no bound on its turns exists |
| `MessageLoops.MessageLoop.Run` | src/wtf/task_runner/message_loop_impl.cpp:56-68 | each wake-up acts on the loop that those before it leave, and what is called is what the flushes call, one after the other |
| `MessageLoops.MessageLoop.RunOut` | src/wtf/task_runner/message_loop_impl.cpp:62-67 | the last flush, on the terminated loop: it calls what its turns call, and the queue is empty afterwards |
| `MessageLoops.MessageLoop.DoRun` | src/wtf/task_runner/message_loop_impl.cpp:56-68 | a run that starts un-terminated, over wake-ups with anything posted before and during them, calls exactly what the flush of each wake-up and then the last flush on the terminated loop call, and ends terminated with an empty queue; one that starts terminated changes nothing |
| `MessageLoops.PostAfterTermination` | src/wtf/task_runner/message_loop_impl.cpp:98-109 | after termination nothing a callback does adds a task |
| `Sender.FrameRawWrites` | src/net/ws_cli/implement/ev/session_impl_ev.cpp:941-1000 | a successful single-frame send adds exactly the bytes of one final masked frame with that payload and the next key drawn, and leaves the rest of the session alone |
| `Sender.PiecesExact` | src/net/ws_cli/implement/ev/session_impl_ev.cpp:782-797 | the number of pieces is the length over the limit, rounded up |
| `Sender.FragmentationWellFormed` | src/net/ws_cli/implement/ev/session_impl_ev.cpp:619-806 | a successful fragmented send adds exactly the frames of section 5.4 of RFC 6455: one per piece and an empty final one, first TEXT or BINARY then CONTINUATION, none over the limit, payloads joining to the message, each with a key of its own; and sending is idle again |
| `Sender.SendLimits` | src/net/ws_cli/implement/ev/session_impl_ev.cpp:952-970 | control payload over 125 bytes and any payload over 63 bits of length are refused, and nothing is written |
| `Sender.SendOrder` | src/net/ws_cli/implement/ev/session_impl_ev.cpp:619-761 | the steps of a fragmented message are refused, and change nothing, when it is not their turn |
| `Sender.SendRefused` | src/net/ws_cli/implement/ev/session_impl_ev.cpp:947-950 | while a message is under way every other send is refused and writes nothing |
| `Sender.FailedSendIsFinal` | src/net/ws_cli/implement/ev/session_impl_ev.cpp:786-801 | a fragmented send that fails under way leaves the session unable to send anything more |
| `Sender.HelloFrames` | src/net/ws_cli/ws_header.cpp:19-106 | examples of section 5.7 of RFC 6455 as literal bytes: a text message and a ping |
| `Sender.HelloFragments` | src/net/ws_cli/ws_header.cpp:19-106 | a text message in two frames |
| `Sender.MaskedHelloFrames` | src/net/ws_cli/implement/ev/session_impl_ev.cpp:959-996 | a masked text message and a masked pong |
| `Sender.LongFrames` | src/net/ws_cli/ws_header.cpp:70-92 | messages of 256 bytes and of 64 KiB |
| `Receiver.CleanResumes` | src/net/ws_cli/implement/ev/session_impl_ev.cpp:1432-1572 | reading in two calls does what one call does, when neither meets a violation or a torn header, code point or mask group |
| `Receiver.CleanContinues` | src/net/ws_cli/implement/ev/session_impl_ev.cpp:1432-1572 | where such a call stops, going on is again free of violations if reading all at once is |
| `Streams.ChunkIndependence` | src/net/ws_cli/implement/ev/session_impl_ev.cpp:1432-1572 | however the bytes of acceptable frames are split over reads that stop where a read may, the session ends in the state of frame-by-frame reading |
| `Delivery.DeliversAllowed` | src/net/ws_cli/implement/ev/session_impl_ev.cpp:1158-1186 | every stream of frames the standard allows is taken whole and shows exactly its messages (each the concatenation of its frames' payloads), pings and pongs, in order, with control frames anywhere between |
| `Delivery.ChunkedDelivery` | src/net/ws_cli/implement/ev/session_impl_ev.cpp:1369-1389 | both together: the same is shown under every permitted split, and no input is left |
| `ExactConditions.CutExact` | src/net/ws_cli/implement/ev/session_impl_ev.cpp:1531-1549 | an allowed unmasked stream read in two parts ends as in one if and only if the cut is not inside a code point of a final text frame |
| `ExactConditions.WrittenGuardExact` | src/net/ws_cli/implement/ev/session_impl_ev.cpp:889-893 | with the continuation guard as written, a session stays open on an allowed stream if and only if no frame is a continuation |
| `Violations.HeaderExact` | src/net/ws_cli/implement/ev/session_impl_ev.cpp:816-905 | whatever bytes come between frames, with the documented guard: the session waits until the length field is there; then it takes the header if and only if sections 5.1, 5.2, 5.4 and 5.5 of RFC 6455 allow it next or it is of an allowed kind but masked, not in the shortest form, with a length over 63 bits, or a control frame over 125 bytes; any other is answered with 1002 and not taken |
| `Violations.LongPingAccepted` | src/net/ws_cli/implement/ev/session_impl_ev.cpp:870-905 | such a departure: the header of a ping of 200 bytes is taken |
| `Violations.LongFormAccepted` | src/net/ws_cli/implement/ev/session_impl_ev.cpp:838-846 | another: a length of 5 written in two more bytes |
| `Violations.MaskedAccepted` | src/net/ws_cli/implement/ev/session_impl_ev.cpp:858-865 | another: a masked frame from the server |
| `Violations.HighBitAccepted` | src/net/ws_cli/implement/ev/session_impl_ev.cpp:847-856 | another: a 64-bit length with its highest bit set |
| `Violations.TextExact` | src/net/ws_cli/implement/ev/session_impl_ev.cpp:1531-1549 | the text check raises an alarm if and only if the text so far is not well-formed, in a final frame, or cannot become so, in any other; it is answered with 1007 |
| `Violations.ControlExact` | src/net/ws_cli/implement/ev/session_impl_ev.cpp:1401-1425 | a control frame announced over 125 bytes is refused if and only if more than 125 bytes of it have arrived; it is answered with 1002, and until then it shows nothing |
| `Violations.ClosingDeliversNothing` | src/net/ws_cli/implement/ev/session_impl_ev.cpp:1357-1363 | once closing has begun no message is delivered any more, whatever is read |
| `EndToEnd.EndToEndIntended` | src/net/ws_cli/implement/ev/session_impl_ev.cpp:763-1567 | with a 64-bit length and the documented guard: for every message, key and frame limit, what a successful send wrote is received as that message and nothing else if and only if it is binary, or text that is well-formed in one frame or not rejected in several |
| `EndToEnd.EndToEndChunked` | src/net/ws_cli/implement/ev/session_impl_ev.cpp:1495-1567 | the same when the bytes arrive in pieces: headers whole, payload reads multiples of four but for the last |
| `AsWrittenBuild.NeverDelivered` | src/net/ws_cli/implement/ev/session_impl_ev.cpp:889-893 | with the guard as written, a message in several frames is never delivered, whatever is read |
| `AsWrittenBuild.EndToEndLiteral` | src/net/ws_cli/implement/ev/session_impl_ev.cpp:763-1567 | the build as written: what a successful send wrote arrives if and only if it went in one frame, is under 128 bytes, and is binary or well-formed |
| `Interleaving.TrafficExact` | src/net/ws_cli/implement/ev/session_impl_ev.cpp:981-996 | messages sent between the frames of an allowed stream, at any point of any permitted split of it into reads and whatever becomes of them, do not change what the stream shows |
| `Interleaving.ReadInTwo` | src/net/ws_cli/implement/ev/session_impl_ev.cpp:1495-1567 | undisturbed, an allowed frame cut in its payload is read up to the cut and from there to its end |
| `Interleaving.SendInsideFrame` | src/net/ws_cli/implement/ev/session_impl_ev.cpp:959-996 | a message sent at such a cut, in one frame or several, leaves what is received unchanged if and only if the received frame is a final data frame, the message goes in one frame whose length as stored is that of the received frame, and its key bytes over the rest are zero |
| `Interleaving.SplitMessage` | src/net/ws_cli/implement/ev/session_impl_ev.cpp:959-996 | where it does not: a message of two bytes is shown as one of one byte |
| `ClosingHandshake.EchoExact` | src/net/ws_cli/implement/ev/session_impl_ev.cpp:1188-1272 | a received close is answered by one close frame with the same body if and only if its code is valid and its reason not rejected, none was sent, no message is under way, and key and writes succeed |
| `ClosingHandshake.AnswerExact` | src/net/ws_cli/implement/ev/session_impl_ev.cpp:1188-1272 | what any close frame makes of the session: an empty one is answered with 1000 and the stale reason, half a code or an unusable code with 1002, a reason that cannot become well-formed with 1007, any other with its echo, each if it can be sent and not otherwise; which status and reason length are remembered; and an answer to a close frame of ours stops the timer and sends nothing |
| `WholeSessions.EchoRead` | src/net/ws_cli/implement/ev/session_impl_ev.cpp:1188-1272 | the same from the bytes: reading a close frame of at most 125 bytes is answered so exactly then |
| `WholeSessions.CloseRead` | src/net/ws_cli/implement/ev/session_impl_ev.cpp:1188-1272 | the same from the bytes of any close frame of at most 125 bytes |
| `ClosingHandshake.CloseTimerExact` | src/net/ws_cli/implement/ev/session_impl_ev.cpp:1036-1110 | closing starts the close timer if and only if the close frame is out and the timer can be had; otherwise the connection is given up and 1006 reported |
| `WholeSessions.EofExact` | src/net/ws_cli/implement/ev/session_impl_ev.cpp:206-244 | at the end of the connection the rest of the input is read, the connection shut, and the peer's status reported, or 1006 when no close frame had come |
| `WholeSessions.EndAfterClose` | src/net/ws_cli/implement/ev/session_impl_ev.cpp:206-244 | a close frame and then the end: the user is told the status of that frame, 1000 for an empty one and 1005 for half a code |
| `WholeSessions.EndWithoutClose` | src/net/ws_cli/implement/ev/session_impl_ev.cpp:206-244 | allowed frames and then the end: the user is shown them and then told 1006 |
| `ClosingHandshake.CloseKeeps` | src/net/ws_cli/implement/ev/session_impl_ev.cpp:1036-1110 | closing sends the close frame only once and keeps the rules of the sending side, whatever fails |
| `ClosingHandshake.SendKeeps` | src/net/ws_cli/implement/ev/session_impl_ev.cpp:763-806 | so does sending a message, whatever becomes of it |
| `ClosingHandshake.ReadKeeps` | src/net/ws_cli/implement/ev/session_impl_ev.cpp:1432-1572 | so does reading any bytes at all, and it never reopens the session |
| `SessionRuns.CloseSafety` | src/net/ws_cli/implement/ev/session_impl_ev.cpp:1036-1110 | in every run without a close before the handshake completed: at most one close frame, the last frame; the close timer runs only after it; the output is the request and the frames sent unless a write broke off; nothing is written after the close frame |
| `SessionRuns.EarlyCloseBreaks` | src/net/ws_cli/implement/ev/session_impl_ev.cpp:118-144 | the condition is needed: a session closed before its handshake completed can be reopened by the reply and then sends data behind the close frame |
| `SessionRuns.ShutForGood` | src/net/ws_cli/implement/ev/session_impl_ev.cpp:73-95 | the close timer and the end of the connection shut it for good: whatever is possible afterwards, nothing is written and no message shown |
| `SessionRuns.RefusedForGood` | src/net/ws_cli/implement/ev/session_impl_ev.cpp:118-144 | so does a refused handshake reply |
| `OpeningHandshake.ReadsLine` | src/net/ws_cli/implement/ev/session_impl_ev.cpp:459-463 | reading a line undoes writing one with CR LF |
| `OpeningHandshake.ReadLineExact` | src/net/ws_cli/implement/ev/session_impl_ev.cpp:459-463 | a line is what stands before the first LF, without a CR at its end, and there is none exactly when there is no LF |
| `HandshakeExact.LineExact` | src/net/ws_cli/implement/ev/session_impl_ev.cpp:1670-1864 | a header line passes if and only if no header so far is wrong: each required one at most once and matching, none refused |
| `HandshakeExact.SameExact` | src/net/ws_cli/implement/ev/session_impl_ev.cpp:1670-1694 | the comparison of names and values decides equality but for the case of ASCII letters |
| `HandshakeExact.ReplyExact` | src/net/ws_cli/implement/ev/session_impl_ev.cpp:528-617 | one read completes the handshake if and only if the reply is an HTTP/1.1 101 line, exactly one matching Upgrade, Connection and Sec-WebSocket-Accept, no extension or protocol, and a blank line; the bytes behind are left over |
| `HandshakeExact.ReplyStandard` | src/net/ws_cli/implement/ev/session_impl_ev.cpp:1655-1864 | the same with the header names and values spelled out, and the accept value as the Base64 of the hash of key and GUID |
| `HandshakeExact.ReplyOnWire` | src/net/ws_cli/implement/ev/session_impl_ev.cpp:446-617 | and for replies as sent: status line, header lines, an empty line and anything after it, which is what is left |
| `HandshakeChunks.SplitExact` | src/net/ws_cli/implement/ev/session_impl_ev.cpp:446-502 | a reply read in two parts is read as in one if and only if no required header behind the cut lacks a value and would match the one carried over the cut |
| `HandshakeChunks.NoErrorIsOne` | src/net/ws_cli/implement/ev/session_impl_ev.cpp:446-617 | however a reply is split over reads, if none fails the outcome is that of one read; so only such replies complete the handshake |
| `HandshakeChunks.SplitIndependent` | src/net/ws_cli/implement/ev/session_impl_ev.cpp:446-617 | when every required header carries its value, the outcome does not depend on the split at all |
| `HandshakeChunks.BorrowedUpgrade` | src/net/ws_cli/implement/ev/session_impl_ev.cpp:414 | a header without a value takes the previous line's: read together it passes, read apart it fails |
| `WholeSessions.ReplyPending` | src/net/ws_cli/implement/ev/session_impl_ev.cpp:118-130 | while the reply is incomplete, read events only feed the handshake and leave the rest of the session alone |
| `WholeSessions.FirstMessages` | src/net/ws_cli/implement/ev/session_impl_ev.cpp:108-144 | from the opening request on: when a reply over any number of reads completes the handshake and the bytes behind it, over any permitted split into later reads, are those of allowed frames, the user sees the connection and then exactly what those frames show; and the reply was an acceptable one |
| `Client.Session.constructor` | src/net/ws_cli/implement/ev/session_impl_ev.cpp:363-374 | a session whose request is out, as every run starts |
| `Client.Session.SendFrameRaw` | src/net/ws_cli/implement/ev/session_impl_ev.cpp:941-1000 | masks in the caller's buffer and does what the specification of a single-frame send says; the rest of the buffer is untouched |
| `Client.Session.OnSendMsgBegin` | src/net/ws_cli/implement/ev/session_impl_ev.cpp:619-638 | begins a message as specified, or refuses |
| `Client.Session.OnMsgFrameDataBegin` | src/net/ws_cli/implement/ev/session_impl_ev.cpp:641-689 | writes the header of the next frame as specified |
| `Client.Session.OnMsgFrameDataSend` | src/net/ws_cli/implement/ev/session_impl_ev.cpp:691-713 | masks and writes its payload as specified |
| `Client.Session.OnMsgFrameSend` | src/net/ws_cli/implement/ev/session_impl_ev.cpp:715-738 | both, as specified |
| `Client.Session.OnSendMsgEnd` | src/net/ws_cli/implement/ev/session_impl_ev.cpp:740-761 | the empty final frame, as specified |
| `Client.Session.SendFragments` | src/net/ws_cli/implement/ev/session_impl_ev.cpp:782-797 | the loop over the frames does what its recursive specification says |
| `Client.Session.SendMsgEx` | src/net/ws_cli/implement/ev/session_impl_ev.cpp:763-806 | the specification that the sender theorems are about |
| `Client.Session.SendClose` | src/net/ws_cli/implement/ev/session_impl_ev.cpp:1002-1030 | the close frame of status and reason, with both limits |
| `Client.Session.CloseWithStatusReason` | src/net/ws_cli/implement/ev/session_impl_ev.cpp:1036-1110 | the specification that the closing theorems are about |
| `Client.Session.HandleCloseFrame` | src/net/ws_cli/implement/ev/session_impl_ev.cpp:1188-1272 | judges the body and answers as specified |
| `Client.Session.UnpackHeader` | src/net/ws_cli/implement/ev/session_impl_ev.cpp:816-868 | fills the header field by field as the unpacker of the round trip |
| `Client.Session.ValidateHeader` | src/net/ws_cli/implement/ev/session_impl_ev.cpp:870-905 | accepts exactly the headers the protocol checks allow |
| `Client.Session.HandleFrameBegin` | src/net/ws_cli/implement/ev/session_impl_ev.cpp:1158-1186 | starts a control frame, a frame or a message as specified |
| `Client.Session.HandleFrameData` | src/net/ws_cli/implement/ev/session_impl_ev.cpp:1401-1430 | stores payload, or closes when control payload outgrows its buffer, which it never overruns |
| `Client.Session.HandleFrameEnd` | src/net/ws_cli/implement/ev/session_impl_ev.cpp:1369-1389 | ends a frame as specified: message delivered unless closing, control frames dispatched |
| `Client.Session.CheckText` | src/net/ws_cli/implement/ev/session_impl_ev.cpp:1531-1549 | the UTF-8 check on one read's worth of text |
| `Client.Session.ReadWebsocket` | src/net/ws_cli/implement/ev/session_impl_ev.cpp:1432-1572 | the read loop does what its recursive specification says, to the last byte left |
| `Client.Session.ReadHttpHeaders` | src/net/ws_cli/implement/ev/session_impl_ev.cpp:446-502 | the header loop does what its recursive specification says, with the value carried from line to line |
| `Client.Session.ReadServerHandshakeReply` | src/net/ws_cli/implement/ev/session_impl_ev.cpp:528-617 | the state machine with its fall-throughs does what the specification of a reply says |
| `Client.Session.OnRead` | src/net/ws_cli/implement/ev/session_impl_ev.cpp:108-144 | a read event is the read step of a run |
| `Client.Session.OnEofEvent` | src/net/ws_cli/implement/ev/session_impl_ev.cpp:206-244 | the end of the connection is the last step of a run: reported clean only if a close frame had come |
| `Client.Session.OnCloseTimeout` | src/net/ws_cli/implement/ev/session_impl_ev.cpp:73-95 | the close timer is the timeout step of a run |
| `Client.Session.DoClose` | src/net/ws_cli/implement/ev/session_impl_ev.cpp:1032-1034 | a close with 1000 is a close step of a run |
| `Client.Session.DoSendMsg` | src/net/ws_cli/implement/ev/session_impl_ev.cpp:808-814 | a text message is a send step of a run |

## Left out

- Client.Session: the object's fields are held in two records, one per direction, and its control buffer and evbuffers as sequences; that two of its buffers could be the same memory is not modelled.
- libevent, DNS, sockets and TLS: they appear as byte sequences, events and calls that may fail.
- The libuv, Boost.Beast and HTTP sessions and their option classes: a subset of the same sender, or forwarding.
- Sending without copying (`evbuffer_add_reference`): the output buffer takes the bytes when they are written.
- Tokenising the status line and header lines (`sscanf`, `istringstream`): parameters; only that a missing value leaves the previous one in place is modelled.
- Base64.DecodeBase64: strings on which the program's indices leave the string are excluded (`Readable`); `EnoughExact` says which they are.
- Subprotocols, extensions and custom headers of the request: the program refuses every reply that names one, which is modelled; the request itself is one byte sequence.
- Connection timeouts and reconnecting: the timeout handler only logs.
- Semaphores of the pipeline: counters with atomic steps; blocking waits do not occur in it.
- Trace ids wrapping around, and the pipeline's destructor: they add no state.
- Merging of task queues (`Merge`, `Unmerge`): declared without definitions; `Owns` and the thread checks built on it read what merging would set.
- Termination from another thread and the platform timers of the message loop: operating system behaviour; a run of the loop is any sequence of wake-ups.
- MessageLoops.MessageLoop.DoRun: the platform's `Run` is the sequence of wake-ups it is given, each with what other threads did before it; a flush that never ends is not a run (`RunEnds`).
- MessageLoops.MessageLoop.FlushTasks: a full flush that never ends has no final state; `SelfPostingNeverEnds` shows there are such.
- Reflection, logging, tracing, time and singletons: forwarding with no property of its own.
