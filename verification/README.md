# Verification of the epoll server and its client

A server takes byte chunks from many clients, cuts each client's stream into length-prefixed
frames, queues the frames as tasks for an elastic pool of worker threads, and puts the replies
into one send list for each client, which one sender thread drains. A client sends one request
and puts the reply together again. This project models these parts and proves what holds of
them for every input, every chunking and every interleaving.

`dafny verify dfyconfig.toml` checks the whole project.

| file | what it models |
|---|---|
| `Bytes.dfy` | bytes, 32-bit words in native (little-endian) layout, buffers laid end to end |
| `Frames.dfy` | the reference: a whole stream cut into frames |
| `Reassembly.dfy` | one call of `makeNewTask` as a value, and exactly when it agrees with the reference |
| `Streams.dfy` | whole runs: any chunking of one client, any interleaving of many |
| `FinalState.dfy` | agreement at the end of a run instead of after every call |
| `HeaderReads.dfy` | exactly when a header read runs past the end of the receive buffer |
| `TaskController.dfy` | the same on the heap, with frame buffers filled in place |
| `PoolModel.dfy` | the pool as interleaved steps: one program counter for each worker, a mutex holder, states written outside the mutex |
| `PoolSafety.dfy`, `PoolTasks.dfy`, `PoolProgress.dfy` | what every reachable pool state satisfies; the queue; draining |
| `PoolIdle.dfy` | how a worker spends its time between polls, by a history read off the run |
| `PoolLimits.dfy` | for which pool sizes the promises fail, by runs built for all sizes |
| `PoolSettles.dfy` | from which states the pool can get all its tasks done |
| `ThreadPool.dfy` | the pool as an object whose critical sections and loops are steps of the model, with workers moving in between |
| `Protocol.dfy`, `HexChar.dfy` | the two codecs |
| `SendQueue.dfy`, `Client.dfy`, `Dispatch.dfy` | send lists, the client's receive loop, `onTaskProcessor` |
| `ServerModel.dfy` | all parts as one transition system; replies are conserved; end-to-end results |
| `ServerProgress.dfy` | exactly which states can be served to the last reply; that every surviving input can |
| `ReplyOrder.dfy` | exactly which pools keep the replies in the order of the requests |

## What was found

Nine promises do not hold on all inputs. For each there is a proof of exactly when it holds.

- **Fragmentation independence.** `makeNewTask` reads four header bytes even if fewer have come.
  The receive buffer is zeroed first, so the missing bytes read as zeros. `FeedExact` and `RunExact`: the code agrees
  with the reference split after every call if and only if every header that was split continues with zeros
  and the part of it that came declares more than has come. `SplitHeaderBreaksFraming` is a stream of four bytes that fails.
  Near the end of the 32 KiB buffer the header read runs up to three bytes past the buffer; these are arbitrary
  in the model, and the condition says when they matter (when that happens: see Memory). `FinalExact`: with zeros behind every chunk and no frame
  shorter than its own header the same condition is exact for the end of the run alone, so nothing that goes wrong comes right
  again. `ShortFramesComeRight` shows that a frame of one byte can.
- **Termination.** `RecursionReturns`: the recursion returns if and only if the bytes behind the frame under way do not
  meet an empty frame: once the whole frames are cut off, the next header, or with fewer than four bytes left the one
  behind it, reads as zero (`MeetsEmpty`). Over zeroed memory this says that what is left is declared shorter than it
  is (`EmptyOverZeros`). One zero byte is enough (`OneByteForEver`).
- **Memory.** Every copy is to stay inside its source and its destination.
  - Destination: `OverrunExact`: the copy leaves the frame buffer exactly when the 32-bit sum of lengths wraps.
    `OverrunReached`: 131072 full receives of one frame declared 2^32 - 1 bytes long get there.
  - Source: `CallReadsPastExact`: a header is read past the 32 KiB receive buffer exactly when what is left of the
    bytes behind the frame under way, once the whole frames are cut off, is one to three bytes long and ends too near the
    end of the buffer. After a receive that fills the buffer that is any piece of a header (`FullReceive`); a
    receive that leaves three bytes free never does it (`RoomIsEnough`), nor does an admissible chunking
    (`AdmissibleStaysInside`). A frame of 32767 bytes with one byte behind it does (`PastReached`).
- **Never fewer than the minimum of workers; no task without a worker.** The release check and the decrement
  are two critical sections, so several workers can pass the check on the same count, and until then
  they count as idle for `addTask`. `FloorExactly` and `StrandedExactly`: both promises fail if and only if the minimum
  is below the maximum, or the start handshake can be given up and the minimum is below 65535. With the sizes 2 and 8 of
  the server neither holds. `PoolFloor` and `NoStrandedTask` give the bounds in the number of workers leaving at once.
- **Never more than the maximum of workers.** `CapExactly`: it holds if and only if the start handshake is never
  given up after its ten tries. `PoolCap`: each time it was given up accounts for one worker more at most, and
  as long as the sum fits in 16 bits the counter is true. `CapAttained`: every one of these bounds is reached.
- **Replies in the order of the requests.** `OrderExactly`: in all runs, if and only if the maximum is one worker and the
  start handshake is never given up. Otherwise two workers can exchange the replies to two requests of one client.
- **Hex decoding.** The decoder accepts digits of either case, but converts the case only for its test.
  `DecodeMixedCaseExactly`: a lower-case digit is decoded as meant exactly if it is the high digit of its byte.

And what can be promised: `EveryRunServed`: in every pool, every list of chunks that the reassembler survives can be
served to the last reply. `ServedExactly` says from which states that is possible without a further chunk.

## Assumptions

- `recv` never fails in the client; `::send` writes the whole buffer; the descriptor of a closed connection is not used
  again while work for it is left.
- The pool is initialised once, with 1 <= min <= max <= 65535, and not shut down. A pool may be patient or not: in a
  patient one the start handshake is never given up.
- A call of `onTaskProcessor` returns. Sleeps and waits end at any moment.

## Model

| member | source | states |
|---|---|---|
| Bytes.WordRoundTrip | protocol/protocol.cpp:41-44 | a word copied into a message and out again is the same |
| Bytes.BytesRoundTrip | protocol/protocol.cpp:56-58 | four bytes read as a word and written again are the same |
| Bytes.WordSpelled | protocol/protocol.cpp:41-44 | the four bytes stored for a word add up to it, each counting 256 times the one before |
| Bytes.WordShift | protocol/protocol.cpp:56-58 | the word loaded from four bytes has the first as its lowest byte, and the others make the rest |
| Bytes.WordStands | server/taskController.cpp:100-101 | a word stands at an offset, as a sum of four bytes, exactly where it is loaded from and where it was stored |
| Bytes.Signed | protocol/protocol.cpp:56-57 | an int read from a message is the one value in its range that is equal to the word modulo 2^32 |
| Bytes.PeekShort | server/taskController.cpp:100-101 | a header continued by zeros is never larger than the true one, and equal exactly when the missing bytes are zero |
| Frames.CutKeepsBytes | server/taskController.cpp:111-126 | the reference split loses and adds no byte |
| Frames.CutFlat | protocol/protocol.cpp:32-46 | frames that state their own length, laid end to end, are cut into exactly those frames with nothing left |
| Frames.CutAppend | server/taskController.cpp:128-149 | splitting is incremental: only the uncut rest matters for what follows |
| Reassembly.FeedConsumes | server/taskController.cpp:111-149 | every call that returns has put each byte once, in order, into a queued frame or the partial frame, and 0 < m_curLen < m_len there; for all bytes |
| Reassembly.FreshExactly | server/taskController.cpp:97-127 | with nothing stored, a call returns with given tasks and slot exactly if the tasks are nonempty, as long as the word at their start says, laid end to end in front of the rest, and the slot is that rest with the length its header is read as |
| Reassembly.CallExactly | server/taskController.cpp:93-151 | the same for a call from any slot, the stored frame being completed first or lengthened: nothing but the bytes decides the outcome |
| Reassembly.OverrunExact | server/taskController.cpp:131-139 | a copy leaves the frame buffer exactly when the 32-bit sum of lengths wraps |
| Reassembly.NoOverrun | server/taskController.cpp:131-139 | it never does for lengths up to 2^32 - 32768 and chunks up to the receive buffer |
| Reassembly.FeedEndless | server/taskController.cpp:93-151 | a call goes on for ever exactly if the bytes behind the frame under way meet an empty frame, for any slot |
| Reassembly.RecursionReturns | server/taskController.cpp:93-151 | the call with its recursion, in either branch, returns exactly for the bytes that meet no empty frame, and then with the modelled outcome |
| Reassembly.CallReturns | server/taskController.cpp:117-120 | a stack with room for one call more than there are bytes is enough whenever any is |
| Reassembly.EmptyOverZeros | server/socket/socketBase.cpp:158-159 | over zeroed memory that is: the header of what is left reads as less than what is left |
| Reassembly.OneByteForEver | server/taskController.cpp:97-120 | one zero byte makes the recursion endless |
| Reassembly.FreshExact | server/taskController.cpp:97-127 | for a client with nothing stored, the call agrees with the reference exactly when the uncut rest is pending and its missing header bytes read as zeros |
| Reassembly.FeedExact | server/taskController.cpp:93-151 | one call, from any slot the reference prescribes, leaves what the reference prescribes if and only if the bytes are safe |
| Streams.RunExact | server/taskController.cpp:93-151 | over whole runs, code and reference agree after every call if and only if every call is safe |
| Streams.FragmentationIndependence | server/taskController.cpp:93-151 | two safe chunkings of a stream give the same tasks and leftover, those of the reference |
| FinalState.FinalExact | server/taskController.cpp:93-151 | with zeros behind the chunks and no frame shorter than its header, the final state is the reference's if and only if every call was safe |
| FinalState.HeaderWasTrue | server/taskController.cpp:100-101 | a run that is right before and at the end never read a header whose missing bytes were not zero |
| FinalState.ShortFramesComeRight | server/taskController.cpp:111-120 | a frame of one byte, cut too early, leaves the final state right |
| Streams.OverrunReached | server/taskController.cpp:131-134 | 131072 full receives of one frame lead to the copy past its buffer |
| Streams.ReceiveSurvives | server/taskController.cpp:88-151 | which chunks the server survives, in terms of the bytes |
| Streams.AdmissibleIsSafe | server/socket/socketBase.cpp:159-171 | chunkings that never split a header, of frames neither empty nor near 2^32, are safe whatever lies behind the buffer |
| Streams.AdmissibleSlot | server/taskController.cpp:121-134 | between admissible calls 4 <= m_curLen < m_len, m_len is the declared length, and the stored bytes are the uncut suffix of the stream |
| Streams.SplitHeaderBreaksFraming | server/taskController.cpp:100-101 | a concrete stream that two chunkings cut into different frames |
| Streams.OneClient | server/taskController.cpp:96-127 | in a server that survives, one client's tasks and slot are those of its own chunks |
| Streams.ClientIsolation | server/taskController.cpp:88-151 | the same for all clients, and the server survives exactly when each client alone would let it |
| Streams.InterleavedReassembly | server/taskController.cpp:88-151 | many clients interleaved, each safe: each gets the reference frames of its own stream |
| HeaderReads.ReadsPastExact | server/taskController.cpp:100-120 | some header read of the recursion runs past the buffer exactly when what is left once the whole frames are cut off is a piece of a header too near the end |
| HeaderReads.CallReadsPastExact | server/taskController.cpp:93-151 | the same for a call, whatever is stored: by the bytes behind the frame under way |
| HeaderReads.FullReceive | server/socket/socketBase.cpp:14 | after a receive that fills the buffer: exactly when one to three bytes are left |
| HeaderReads.RoomIsEnough | server/socket/socketBase.cpp:158-159 | a receive that leaves three bytes free keeps every header read inside |
| HeaderReads.SafeReadsPast | server/taskController.cpp:93-151 | a safe call reads past exactly if it starts on a rest that is a piece of a header so near the end |
| HeaderReads.AdmissibleStaysInside | server/socket/socketBase.cpp:158-171 | no call of an admissible chunking reads past the buffer |
| HeaderReads.PastReached | server/taskController.cpp:100-101 | a frame of 32767 bytes and one byte more do, whatever lies behind the buffer |
| HeaderReads.UnrolledCallPastExact | server/taskController.cpp:117-120 | a stack with room for one call more than there are bytes makes all the header reads there are |
| TaskController.ReadHeader | server/taskController.cpp:100-101 | reads the word continued by what lies behind the received bytes and the buffer, and reports a read past the buffer exactly |
| TaskController.TaskController.MakeNewTask | server/taskController.cpp:93-151 | the heap version, recursion and in-place merging included, for every input: it returns in the modelled state, or stands before a copy past its frame buffer, or uses up the stack, exactly as the unrolled call does, and reports header reads past the receive buffer exactly |
| TaskController.TaskController.NewFrame | server/taskController.cpp:97-127 | the branch that starts a frame, empty frames and header reads past the receive buffer included |
| TaskController.TaskController.MergeChunk | server/taskController.cpp:128-149 | the branch that merges into a stored frame, with the 32-bit sum and its wrap-around |
| TaskController.TaskController.QueueFrame | server/taskController.cpp:110-115 | a whole frame is copied to a buffer of its own and queued; nothing stored changes |
| TaskController.TaskController.StoreFrame | server/taskController.cpp:121-126 | what has come of a longer frame is copied to the front of a buffer of the declared size and stored |
| TaskController.TaskController.FillFrame | server/taskController.cpp:133-139 | copying behind the bytes already there changes nothing that is stored, and the bytes are those of the chunk |
| TaskController.TaskController.AddAndErase | server/taskController.cpp:141-143 | the completed frame is queued last and its partial entry goes; no other client changes |
| TaskController.TaskController.OnRecv | server/taskController.cpp:88-91 | with stack enough a chunk is handled to the end exactly if the modelled server survives it, and a header read past the buffer is reported exactly |
| TaskController.TaskController.RecvEvent | server/socket/socketBase.cpp:158-173 | zeroing, receiving and the listener's call make one modelled event, with a buffer of 32 KiB; an empty receive does nothing |
| PoolSafety.WorkerMoves | server/threadPool/threadpool.cpp:18-86 | what any worker step can do to the mutex, the counter and the kinds of workers; when a worker polls, waits and asks is said in `PoolIdle` |
| PoolSafety.ScanWorker | server/threadPool/threadpool.cpp:138-146 | no worker step makes untrue what a scan under way has seen |
| PoolSafety.CapWorker | server/threadPool/threadpool.cpp:28-30 | no worker step breaks the cap |
| PoolSafety.CapTimeout | server/threadPool/threadpool.cpp:217-224 | a handshake given up raises the cap by one and keeps counter and floor |
| PoolSafety.LowWorker | server/threadPool/threadpool.cpp:70-83 | only a successful check lowers the number of workers that stay, and it bounds it |
| PoolSafety.CapAdder | server/threadPool/threadpool.cpp:129-156 | the non-atomic scan keeps the cap: a worker read as not idle is registered and stays so, or its handshake was given up |
| PoolSafety.InvStep | server/threadPool/threadpool.cpp:18-86 | every step of every thread keeps mutex discipline, boot order, counter, scan, cap and floor, in patient pools and others |
| PoolSafety.PoolCap | server/threadPool/threadpool.cpp:129-156 | in every reachable state of every pool, registered and unregistered workers together are at most the maximum plus the handshakes given up, and the counter is the number registered, as long as that fits in 16 bits |
| PoolSafety.CounterNeverWraps | server/threadPool/threadpool.cpp:28-30 | until then the 16-bit counter neither overflows nor underflows in any step |
| PoolSafety.PoolFloor | server/threadPool/threadpool.cpp:70-83 | in every pool, with at most k ever leaving at once at least min + 1 - k workers stay |
| PoolSafety.MutualExclusion | server/threadPool/threadpool.cpp:39-53 | never two holders inside critical sections |
| PoolTasks.FirstInFirstOut | server/threadPool/threadpool.cpp:40-48 | popped followed by queued is added, as sequences, in every reachable state |
| PoolTasks.ExactlyOnce | server/threadPool/threadpool.cpp:55-64 | each popped task is with one worker, or was passed on once, or was skipped once for lacking a worker object |
| PoolIdle.LeavesOnlyIdle | server/threadPool/threadpool.cpp:66-74 | in every run a worker that leaves found the queue empty on at least four polls in a row since its last task and has asked since the last of them, early wakeups and 16-bit wrap included |
| PoolIdle.WaitsBetweenPolls | server/threadPool/threadpool.cpp:34-79 | in every run a worker about to poll has waited since its last poll exactly if the row of empty polls counts above 0 in 16 bits, and asked for its release exactly if it counts at least 4: after a task it polls again at once |
| PoolIdle.WaitsOnlyIdle | server/threadPool/threadpool.cpp:66-75 | nobody waits or asks whose last poll found a task, and nobody waits after a fourth empty poll without having asked |
| PoolIdle.CountsEmptyPolls | server/threadPool/threadpool.cpp:31-53 | `ifreeTime` is the number of empty polls in a row modulo 2^16 |
| PoolIdle.ShowsState | server/threadPool/threadpool.cpp:18-80 | in every run `m_state` is 0 before the first line, 2 from before a task is run until after it, 3 from the end of the loop and else 1 |
| PoolProgress.WorkDecreases | server/threadPool/threadpool.cpp:34-79 | while tasks are queued, every worker step lowers a measure of queue and program counters |
| PoolProgress.GoesOnExactly | server/threadPool/threadpool.cpp:18-86 | a worker can make a step exactly if it has not gone and does not wait for a mutex that is held |
| PoolProgress.AdderGoesOnExactly | server/threadPool/threadpool.cpp:110-156 | a thread in `addTask` or `initTaskPool` can go on exactly if it does not wait for a worker that has not started, gives the wait up only in an impatient pool, and `addTask` begins exactly if the mutex is free |
| PoolProgress.SomeoneMoves | server/threadPool/threadpool.cpp:34-79 | a worker that is not leaving keeps the pool from deadlock |
| PoolProgress.NoStrandedTask | server/threadPool/threadpool.cpp:34-79 | without additions every schedule drains the queue within a known bound, and cannot stop before while at most min workers were leaving at once |
| PoolSettles.ComesToRest | server/threadPool/threadpool.cpp:18-86 | from every state with hope some schedule finishes all tasks: the holder first, then tasks in hand, then those leaving, then those that stay |
| PoolSettles.MakesRoom | server/threadPool/threadpool.cpp:129-156 | the next call of addTask can always be made to find a worker that stays or room for a new one |
| PoolSettles.NoHopeStays | server/threadPool/threadpool.cpp:158-169 | a state without hope gets none, whoever moves |
| PoolLimits.StrandingRun | server/threadPool/threadpool.cpp:70-83 | for all pools that can count more workers than the minimum, a run that ends with a task queued and all workers gone |
| PoolLimits.OvergrowingRun | server/threadPool/threadpool.cpp:212-226 | without patience, for all sizes, a run with more workers than the maximum |
| PoolLimits.StrandedExactly | server/threadPool/threadpool.cpp:129-169 | a task can be stranded if and only if min < max, or the handshake can be given up and min < 65535 |
| PoolLimits.FloorExactly | server/threadPool/threadpool.cpp:158-169 | the pool never falls below min if and only if min = max and the handshake is not given up or min = 65535 |
| PoolLimits.CapExactly | server/threadPool/threadpool.cpp:212-226 | the cap holds in every run if and only if the handshake is not given up |
| PoolLimits.CapAttained | server/threadPool/threadpool.cpp:129-156 | for every pool and every number of handshakes given up there is a run with exactly so many workers above the maximum |
| ThreadPool.ThreadPool.InitTaskPool | server/threadPool/threadpool.cpp:110-127 | creates min workers, none registered, by steps of the model; each is waited for, and late exactly if that was given up |
| ThreadPool.ThreadPool.CreateNewThread | server/threadPool/threadpool.cpp:190-230 | lists the new worker in any case; it is late exactly if all eleven looks at its state, at moments that follow one another with one sleep between two, found it not started, and else the last look is the first that found it started |
| ThreadPool.ThreadPool.WaitForStart | server/threadPool/threadpool.cpp:216-220 | the loop of looks and sleeps itself, with workers moving during each sleep |
| ThreadPool.ThreadPool.AddTask | server/threadPool/threadpool.cpp:129-156 | queues the task last and creates a worker exactly if the counter is below the maximum and each listed worker was not idle when it was read, at moments that follow one another up to the looks at the new worker and the final state |
| ThreadPool.ThreadPool.FindIdle | server/threadPool/threadpool.cpp:136-146 | the scan, with workers moving between looks, stops at the first worker it reads as idle and else has looked at all, one after another in one run |
| ThreadPool.ThreadPool.Register | server/threadPool/threadpool.cpp:28-30 | the critical section is one step of the model and counts one up |
| ThreadPool.ThreadPool.Poll | server/threadPool/threadpool.cpp:39-53 | takes the first task exactly if there is one |
| ThreadPool.ThreadPool.NeedReleaseTaskThread | server/threadPool/threadpool.cpp:158-169 | true exactly above the minimum, and changes neither counter nor queue; the worker leaves its loop if it is true and else waits |
| ThreadPool.ThreadPool.Unregister | server/threadPool/threadpool.cpp:81-83 | the critical section is one step of the model and counts one down |
| Protocol.RequestFields | protocol/protocol.cpp:39-45 | each field of a request stands at its offset, lowest byte first, and the total length is true |
| Protocol.RequestRoundTrip | protocol/protocol.cpp:50-61 | a request parses back to its id, command, length and data |
| Protocol.ResponseRoundTrip | protocol/protocol.cpp:77-97 | both kinds of response parse back to their fields; an error of 0 would make the parser read past the message |
| Protocol.RequestParsed | protocol/protocol.cpp:50-61 | every buffer of at least 16 bytes parses, to the words at 4, 8 and 12 and all bytes from 16 on, whatever its length words say |
| Protocol.ResponseParsed | protocol/protocol.cpp:77-97 | the same for responses, with the result word at 12 and the length word at 16; a successful one shorter than 20 bytes over-reads |
| Protocol.ReplyCutOff | protocol/protocol.cpp:77-97 | a response cut off after n >= 20 bytes parses to the id, command and length of the whole one and the first n - 20 bytes of its data |
| Protocol.RequestImage | protocol/protocol.cpp:33-47 | a buffer can be made by makeAPIRequest exactly if its two length words are true and it carries data |
| Protocol.RequestInjective | protocol/protocol.cpp:33-47 | different requests differ on the wire |
| Protocol.IdsRepeat | protocol/protocol.cpp:42 | ids drawn one after another repeat exactly after multiples of 2^32 |
| Protocol.ParseRequestInto | protocol/protocol.cpp:50-61 | returns 0 exactly for a buffer that is not null and has at least 16 bytes; then each out-parameter is the word at its offset, true or not |
| Protocol.ParseResponseInto | protocol/protocol.cpp:77-97 | the same for responses, with length and data exactly if the result is 0; a message too short for its length word gets it from the memory behind |
| Protocol.Protocol.MakeAPIRequest | protocol/protocol.cpp:33-47 | fails exactly for no or empty data and then changes nothing; overruns exactly if the total does not fit in 32 bits; else draws the next id and writes the request |
| Protocol.Protocol.MakeAPIResponse | protocol/protocol.cpp:64-75 | writes the response by offsets, or overruns exactly if the total does not fit in 32 bits |
| Protocol.Protocol.MakeErrResponse | protocol/protocol.cpp:99-108 | writes the error response by offsets |
| SendQueue.SendFifo | server/socket/socketBase.cpp:103-113 | for every socket, buffers that left followed by those pending are those passed to send, in lock order |
| SendQueue.AllTaken | server/socket/socketBase.cpp:61-72 | for a socket never erased all that left was taken by the sender |
| SendQueue.SocketIsolation | server/socket/socketBase.cpp:104-112 | operations on other sockets do not matter, empty lists created in passing included |
| SendQueue.SocketBase.SendTo | server/socket/socketBase.cpp:234-248 | appends to the list of a valid socket, and changes nothing else |
| SendQueue.SocketBase.TakeNext | server/socket/socketBase.cpp:103-113 | takes the first pending buffer of the socket, if any, leaves those behind it, and changes no other socket |
| SendQueue.SocketBase.EraseClient | server/socket/socketBase.cpp:64-66 | the list of the socket goes, and no other |
| Client.ReceiveReply | client/socketClient.cpp:91-121 | for any chunking the loop ends with the first ackLen bytes of the stream, or with all of it if the peer closes before |
| Client.ReplyExactly | client/socketClient.cpp:102-106 | that is the frame the stream starts with exactly if the header bytes missing from the first receive are zero or the stream ends first |
| Client.WholeReply | client/socketClient.cpp:108-118 | a reply whose header comes in one piece arrives whole, and what follows it is dropped |
| HexChar.CharToHex | utility/hexChar.c:21-32 | writes the two digits of each byte and nothing else |
| HexChar.HexToChar | utility/hexChar.c:34-57 | the backward loop decodes pair by pair, for any byte in front of the input, writes nothing else, and reads that byte exactly for an even length above 0 |
| HexChar.DecodeEncode | utility/hexChar.c:21-57 | decoding an encoded text gives the bytes back |
| HexChar.DecodeEveryByte | utility/hexChar.c:34-57 | any pair of bytes, digits or not, decodes to 16 times the high value plus the low one modulo 256, each counted from '0' or, for a letter A to F of either case, from 'A' - 10 |
| HexChar.EncodeDecodeExactly | utility/hexChar.c:21-57 | encoding a decoded text gives it back exactly if it has an even number of digits, all decimal or upper-case |
| HexChar.DecodeMixedCaseExactly | utility/hexChar.c:47-51 | hex digits of either case are decoded as meant exactly if no low digit of a pair is in lower case |
| Dispatch.OnTaskProcessor | server/taskController.cpp:28-86 | a frame under 16 bytes makes no operation on the send lists; any other exactly one send to its client, of the buffer that its bytes call for |
| Dispatch.ReplyToFrame | server/taskController.cpp:39-74 | that buffer, for every frame: a response with the four id bytes of the frame, its command and 1024 times A or B if the word at 8 is 0 or 1, else an empty one, whatever the two length words say |
| Dispatch.ReplyToRequest | server/taskController.cpp:45-72 | a request with command 0 or 1 is answered by its id and command and 1024 times A or B |
| ServerModel.InvStep | server/taskController.cpp:28-151 | every step of the whole server keeps frames in order and replies balanced for every client |
| ServerModel.ReceivesExactly | server/taskController.cpp:88-151 | the receiving thread can take a chunk exactly if nobody is in `addTask`, all its frames are handed over, and it survives the bytes |
| ServerModel.ReplyConservation | server/taskController.cpp:28-86 | in every reachable state, for every client and buffer, the replies due for its frames are those in flight, pending and gone out: none invented, lost or doubled |
| ServerModel.CutIsReference | server/taskController.cpp:88-151 | the frames cut off for a client with safe chunks are the reference frames of its stream |
| ServerModel.EveryRequestAnswered | server/taskController.cpp:28-151 | once all is processed, as `ServerProgress.EveryRunServed` says it can be, a client's buffers are as a multiset the replies to the reference frames of its own stream |
| ServerModel.RequestPipeline | protocol/protocol.cpp:33-61 | encoded requests, end to end and safely cut, are reassembled in order with nothing left, and parse back |
| ServerModel.RequestResponse | client/socketClient.cpp:91-121 | one request over one connection: the client's loop returns a reply with the request's id, command, result 0 and payload |
| ServerProgress.ServedExactly | server/taskController.cpp:28-151 | which reachable states can be served to the end without a further chunk: those with a frame still to be handed over, and those in which the pool has hope |
| ServerProgress.ServedWithinPeak | server/threadPool/threadpool.cpp:70-83 | among them all in which at most min workers were ever leaving at once and none is about to be told to, and all of a pool that cannot grow |
| ServerProgress.EveryRunServed | server/taskController.cpp:28-151 | for every pool and every chunks the reassembler survives there is a run with just these in which all is processed and every reply taken |
| ServerProgress.EveryRequestCanBeAnswered | client/socketClient.cpp:91-121 | so a request in any safe chunks, whatever others send in between, can be served to just its response, which the client's loop turns into the reply however it is cut |
| ReplyOrder.OneWorkerInOrder | server/threadPool/threadpool.cpp:40-64 | with one worker at most, the replies for a client are passed on in the order of its frames in every run, and all of them once everything is processed |
| ReplyOrder.Exchange | server/taskController.cpp:28-86 | two workers busy with two requests of one client can pass on their replies the other way round |
| ReplyOrder.OrderExactly | server/threadPool/threadpool.cpp:129-156 | the replies for every client keep the order of its requests in all runs if and only if max is 1 and the handshake is not given up |

## Left out

- Sockets, epoll, accept, bind and connect, and the IPv4, IPv6 and Unix subclasses: foreign calls. Received data are sequences of chunks.
- Partial sends, receive errors and reuse of descriptors: the code does not handle them; see the assumptions.
- Shutting the pool down or initialising it again, and the reuse branch of `createNewThread`: never reached by the server.
- Memory ownership, allocation failure, singletons and logging.
- What memory looks like after a copy past a buffer: the models stop before the copy.
- FinalState.FinalExact: with memory behind a chunk that is not zero, or with frames shorter than their header, the condition is exact only after every call.
- ServerProgress.EveryRunServed: there is such a run; that every fair one ends so is false, as `PoolLimits.StrandedExactly` shows.
- The error response in `onTaskProcessor`: never made, because `makeAPIResponse` always returns 0.
- The unlocked increment of the message counter by several client threads: ids are drawn serially in the model.
