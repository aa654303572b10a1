# TalonRPC in Dafny

TalonRPC is an RPC framework over epoll and protobuf. This project models the parts of it that
hold state and move bytes, and proves what they do over all inputs and all runs:

- the byte buffer, the frame encoder and the scanning stream decoder (`Bytes`, `TcpBuffer`,
  `BufferRuns`, `Frames`, `Loops`, `Decoder`, `Streams`, `Coder`, `Reassembly`);
- reply correlation from the server's dispatcher to the client's callback table (`Connection`);
- the timer queue behind one timerfd (`Timer`, `TimerRuns`, `TimerObject`);
- the race that finishes an RPC call (`RpcCall`);
- the service centre, its text commands and addresses (`Text`, `Decimal`, `Naming`);
- message ids (`MsgId`), the event loop (`EventLoop`) and the log pipeline (`LogPipeline`).

Code that changes state is a class; each of its methods is specified by a function on values, and
the theorems are about those functions. Reads outside a vector, copies that overflow the decoder's
local arrays and unterminated C strings are undefined behaviour in the source; the model gives them
an outcome of their own (`Fault`, `OutOfBounds`, `Failed`) instead of forbidding them. Clock
readings, random bytes and the serialisation of protobuf messages are parameters. Locked sections
are single steps.

Where the code does less than its documentation suggests, the model follows the code and the exact
condition is a theorem:

- `decode` returns on a buffer of complete frames if and only if there is nothing to decode, a free
  byte behind the frames, or a compaction before the last one (`Streams.DecodeReturnsIff`); in a
  buffer of exactly one frame it pushes the same message forever (`Streams.ExactFitNeverReturns`).
- A frame comes back unchanged if and only if its three text fields are NUL-free and shorter than
  the decoder's arrays (`Decoder.ParseRoundTrip`).
- A cut stream is put together in step if and only if every move is accepted and every unfinished
  frame is quiet (`Reassembly.LockstepIff`). Two bytes of a frame received alone make the decoder
  read outside its vector (`Reassembly.CutInsideLengthFails`), and a start byte in a payload followed
  by a huge length overflows the decoder's index (`Reassembly.OverflowIsNotQuiet`).
- Bytes in front of a frame are passed over by the scan but not by the read index, so the end of the
  frame stays readable (`Streams.JunkMisaligns`).
- The four-copies-per-byte bound on compaction holds if and only if the capacity is at least three.
- A method is routed to its service if and only if the service name has no dot, an add or modify
  command is read back if and only if the service name has no space, and an address is read back if
  and only if the port is 1 to 65535 although `CheckValid` also lets 65536 through.
- A timeout never runs the closure: the call is marked finished first.
- After the first reseed the limit is longer than any id, so the next all-nines id is not followed by
  a new seed but by a carry that leaves the string (`MsgIds.MsgIdUtil.GenMsgID`).

## Model

| member | source | states |
|---|---|---|
| Bytes.FromNetWord | common/util.cc:37-41 | reading four network-order bytes undoes writing any 32-bit integer |
| Bytes.WordFromNet | common/util.cc:37-41 | every four bytes are the word of the integer they are read as, so the two directions are inverse |
| Bytes.NetworkOrder | common/util.cc:37-41 | before the sign is taken, the word read is the big-endian value of its four bytes |
| BufferSpec.Resize | net/tcp/tcp_buffer.cc:65-75 | a new capacity of at least the readable count leaves the content unchanged, at index 0 |
| BufferSpec.Adjust | net/tcp/tcp_buffer.cc:78-91 | compaction keeps capacity and content |
| BufferSpec.Write | net/tcp/tcp_buffer.cc:37-45 | a write appends exactly its bytes, whether or not it grows the buffer |
| BufferSpec.MoveRead | net/tcp/tcp_buffer.cc:93-101 | an accepted read move drops a prefix of that length; a refused one changes nothing |
| BufferSpec.MoveWrite | net/tcp/tcp_buffer.cc:103-112 | an accepted write move appends the bytes stored behind the write index; a refused one changes nothing |
| BufferSpec.Drop | net/tcp/tcp_buffer.cc:48-62 | a read drops the requested count or everything readable |
| BufferSpec.MoveReadExact | net/tcp/tcp_buffer.cc:78-101 | an accepted move, backwards included, leaves exactly the bytes from the new index, and compacts once a third of the capacity lies in front of it |
| BufferSpec.MoveWriteExact | net/tcp/tcp_buffer.cc:78-112 | the same threshold for write moves |
| BufferSpec.DropExact | net/tcp/tcp_buffer.cc:48-62 | the same threshold for reads; a read of nothing changes nothing |
| BufferSpec.WriteExact | net/tcp/tcp_buffer.cc:37-45 | a write that does not fit makes the capacity one and a half times what it needs, rounded down |
| BufferSpec.ResizeTruncates | net/tcp/tcp_buffer.cc:65-75 | too small a capacity keeps the front of the content |
| TcpBuffers.TcpBuffer.constructor | net/tcp/tcp_buffer.cc:11-13 | an empty zeroed buffer of the given size |
| TcpBuffers.TcpBuffer.ResizeBuffer | net/tcp/tcp_buffer.cc:65-75 | the array version refines `Resize` |
| TcpBuffers.TcpBuffer.AdjustBuffer | net/tcp/tcp_buffer.cc:78-91 | the array version refines `Adjust` and copies exactly the readable bytes when it compacts |
| TcpBuffers.TcpBuffer.WriteToBuffer | net/tcp/tcp_buffer.cc:37-45 | the array version refines `Write` and copies exactly the readable bytes when it grows |
| TcpBuffers.TcpBuffer.ReadFromBuffer | net/tcp/tcp_buffer.cc:48-62 | returns the dropped prefix, or leaves the caller's vector alone when nothing is readable |
| TcpBuffers.TcpBuffer.MoveReadIndex | net/tcp/tcp_buffer.cc:93-101 | the array version refines `MoveRead` |
| TcpBuffers.TcpBuffer.MoveWriteIndex | net/tcp/tcp_buffer.cc:103-112 | the array version refines `MoveWrite` |
| BufferRuns.QueueRefinement | net/tcp/tcp_buffer.cc:37-112 | over any sequence of operations the bytes accepted are the bytes consumed followed by the bytes readable, in order |
| BufferRuns.QueueFromStart | net/tcp/tcp_buffer.cc:11-112 | the same from a new buffer on |
| BufferRuns.GrowthIsAmortised | net/tcp/tcp_buffer.cc:37-45 | over any run growth copies at most three bytes per byte written |
| BufferRuns.CompactionIsAmortised | net/tcp/tcp_buffer.cc:78-91 | over every run compaction copies at most four bytes per byte consumed, if and only if the initial capacity is at least three |
| BufferRuns.GrowthLeavesSpare | net/tcp/tcp_buffer.cc:37-42 | a write that grows the buffer beyond one byte leaves the spare byte that the decoder needs |
| Frames.RawCarries | net/coder/tinypb_coder.cc:144-217 | each field of the frame sits at its offset with its length word before it |
| Frames.FrameEnds | net/coder/tinypb_coder.cc:201-205 | a frame ends with the check sum 1 and the end byte |
| Frames.WithIdFills | net/coder/tinypb_coder.cc:145-147 | a missing id becomes "123456789", any other is kept |
| Frames.FramesArePrefixFree | net/coder/tinypb_coder.cc:144-217 | if one frame is a prefix of another the messages are equal once the default id is filled in |
| Frames.StreamInjective | net/coder/tinypb_coder.cc:14-28 | two message lists with the same byte stream are the same list |
| Decoder.ScanExact | net/coder/tinypb_coder.cc:41-67 | on every vector the scan stops at the first start byte that has a received end byte where its length word points, or whose length word leaves the vector or overflows, and finds nothing if and only if there is none |
| Decoder.ParseIff | net/coder/tinypb_coder.cc:76-136 | packages of any origin: the layout is read off exactly when each field begins before the end byte, lies in the vector and leaves its array a NUL |
| Decoder.RejectedIff | net/coder/tinypb_coder.cc:77-118 | packages of any origin: skipped exactly when a length word or the error code does not begin before the end byte |
| Streams.PassExact | net/coder/tinypb_coder.cc:34-136 | a pass over any bytes skips a package that is too short by its length, and runs into undefined behaviour where the scan does |
| Streams.JunkMisaligns | net/coder/tinypb_coder.cc:54-70 | bytes in front of a frame: its message is delivered, but the read index moves by the frame length from the old index and the end of the frame stays readable |
| Decoder.ParseRoundTrip | net/coder/tinypb_coder.cc:69-136 | a frame, wherever it lies in the vector, parses back to its message if and only if its text fields are NUL-free and shorter than 100, 512 and 512 bytes |
| Streams.AcceptedIff | net/tcp/tcp_buffer.cc:93-101 | exactly when no read move over a series of frames is refused |
| Streams.DeliversIff | net/coder/tinypb_coder.cc:31-141 | decoding frames followed by a tail delivers exactly the frames, pass by pass, and leaves the tail, if and only if the moves are accepted and the tail is quiet |
| Streams.DecodeReturnsIff | net/coder/tinypb_coder.cc:31-141 | exactly when decoding a buffer of complete frames returns |
| Streams.ExactFitNeverReturns | net/tcp/tcp_buffer.cc:93-98 | a buffer whose capacity is one frame makes the loop run forever |
| Streams.BatchRoundTrip | net/coder/tinypb_coder.cc:14-141 | any list of good messages, payloads unrestricted, is decoded back in order with nothing left, if and only if the last move is accepted |
| Reassembly.SplitPrefix | net/coder/tinypb_coder.cc:31-67 | every beginning of a stream is whole frames and a beginning of the next frame |
| Reassembly.LockstepIff | net/coder/tinypb_coder.cc:31-141 | each decode delivers exactly the messages its chunk completed and leaves exactly the unfinished bytes, if and only if the run is clean |
| Reassembly.CleanRunFeeds | net/coder/tinypb_coder.cc:31-141 | a clean chunked run delivers the whole list in order and leaves nothing readable |
| Reassembly.HarmlessIsQuiet | net/coder/tinypb_coder.cc:41-62 | readable bytes of any origin whose start bytes each are last or have a whole length word pointing behind the bytes or at no end byte are quiet if and only if the computed indices fit an `int` |
| Reassembly.ImageIsNotQuiet | net/coder/tinypb_coder.cc:50-58 | a received length word that points at a received end byte keeps the buffer from being quiet |
| Reassembly.UnfinishedIsQuiet | net/coder/tinypb_coder.cc:41-62 | the same for the received part of an unfinished frame |
| Reassembly.StreamReassembly | net/coder/tinypb_coder.cc:31-141 | any list of good messages, cut anywhere that leaves 0, 1 or at least 5 bytes of a frame whose other received start bytes are harmless, with a byte to spare and `int` indices, comes out as the original messages with nothing left; each decode delivers what its chunk completed and leaves the unfinished bytes unconsumed |
| Reassembly.LoneStartsCutGently | net/coder/tinypb_coder.cc:41-62 | frames whose only start byte is the first meet that condition for every cut outside length words |
| Reassembly.WholeFramesCutGently | net/coder/tinypb_coder.cc:41-62 | cuts between frames meet it whatever the payloads hold |
| Reassembly.CutInsideLengthFails | net/coder/tinypb_coder.cc:44-53 | the first two bytes of any frame below 2^24 bytes, alone in a fresh buffer of any size, make the scan leave the vector |
| Reassembly.OverflowIsNotQuiet | net/coder/tinypb_coder.cc:45-53 | a start byte followed by a length whose end is beyond an `int` index keeps the scan from passing over it |
| Reassembly.FeedsOnce | net/coder/tinypb_coder.cc:31-141 | what a run of chunks delivers and leaves is determined by the chunks |
| Reassembly.OneChunkIsClean | net/coder/tinypb_coder.cc:31-141 | a whole stream in one chunk with a byte to spare is a clean run |
| Reassembly.FrameImageIsNotQuiet | net/coder/tinypb_coder.cc:50-58 | a frame image inside an unfinished frame is taken for a frame |
| TinyPBCoder.EncodeTinyPB | net/coder/tinypb_coder.cc:144-217 | the array filled through the cursor equals the concatenation of the fields, and an empty id becomes the default id |
| TinyPBCoder.Put | net/coder/tinypb_coder.cc:155-205 | a field is written right behind what was written before, and nothing behind it is touched, so each index is written once |
| TinyPBCoder.Encode | net/coder/tinypb_coder.cc:14-28 | one write per message, in order, and the messages with missing ids filled in |
| TinyPBCoder.FindFrame | net/coder/tinypb_coder.cc:41-62 | on every vector the scanning loop computes the recursive scan, out-of-vector reads and index overflow included |
| TinyPBCoder.NextFrame | net/coder/tinypb_coder.cc:34-136 | on every vector scanning and parsing decide what one pass does |
| TinyPBCoder.Decode | net/coder/tinypb_coder.cc:31-141 | on every buffer on which the loop ends, the imperative loop ends in the state, with the messages and with the outcome of the iterated pass |
| Correlation.CallsMatchIds | net/tcp/tcp_connection.cc:138-145 | for arbitrary incoming messages a callback runs only for its own id, at most once, and for the first message that bears it |
| Correlation.LeftRemovesIds | net/tcp/tcp_connection.cc:138-145 | exactly the ids that arrived leave the table |
| Correlation.CallsEachOnce | net/tcp/tcp_connection.cc:138-145 | messages with distinct pending ids, in any order, run each callback once with its own message |
| Correlation.RouteIff | net/rpc/rpc_dispatcher.cc:48-81 | every request: exactly which are handled, by which service and method, and with which error the others stop |
| Correlation.RoutingIff | net/rpc/rpc_dispatcher.cc:128-168 | an announced method name is routed to its service and method if and only if the service name has no dot |
| Correlation.FullNameInjective | net/rpc/rpc_dispatcher.cc:163-169 | two service and method pairs share an announced name if and only if they are equal or nested, and nesting takes a dot in a service name and in a method name |
| Correlation.RepliesAreGood | net/rpc/rpc_dispatcher.cc:45-119 | replies to decoded requests are themselves decodable, and each bears the id of its own request |
| Correlation.LegDelivers | net/tcp/tcp_connection.cc:133-155 | over one direction of a connection exactly the messages encoded are decoded |
| Correlation.OneChunkConveys | net/tcp/tcp_connection.cc:152-155 | sending everything at once, with a byte to spare at the receiver, is one way to convey it |
| Correlation.ReplyCorrelation | net/tcp/tcp_connection.cc:133-155 | requests in any clean chunks are decoded by the server exactly; the replies of routed requests, completed in any order and sent back in any clean chunks, run each pending callback exactly once with the id and method of its own request and the serialised response or the serialise error, and remove exactly those ids |
| TcpConnections.TcpConnection.PushReadMessage | net/tcp/tcp_connection.cc:275-277 | a pending id keeps its first callback |
| TcpConnections.TcpConnection.Excute | net/tcp/tcp_connection.cc:133-147 | on every in-buffer on which decoding ends, the decoded replies run their callbacks in order and leave the table without their ids |
| TcpConnections.TcpConnection.Reply | net/tcp/tcp_connection.cc:152-155 | replies are appended to the out buffer only |
| TimerSpec.TimespecExact | net/timer.cc:110-117 | the interval survives the conversion and is never the disarming zero |
| TimerSpec.InsertSorted | net/timer.cc:139 | an insertion keeps the queue ordered by arrival with ties in insertion order |
| TimerSpec.AgainAllConsistent | net/timer.cc:74-80 | putting repeated events back keeps every key equal to its event's arrival and every event in the queue at most once |
| TimerRuns.PassIsExact | net/timer.cc:49-88 | a pass appends exactly one firing for each pending, due, uncancelled event, in arrival order, to the history, and leaves exactly the later entries and the re-keyed repeated ones |
| TimerRuns.PassKeepsTheRest | net/timer.cc:32-89 | a repeated event that fired arrives one interval after its reading, every other event is unchanged, and an expired timerfd of an empty queue is left disarmed |
| TimerRuns.AddIsExact | net/timer.cc:127-145 | adding puts in one entry and sets the timerfd if and only if the event is earlier than all pending ones |
| TimerRuns.DeleteIsExact | net/timer.cc:147-170 | deleting cancels one event, erases its entry and changes nothing else |
| TimerRuns.CreateIsExact | net/timer_event.cc:12-22 | a new event is due one interval ahead and changes nothing else |
| TimerRuns.CreatedFiresLater | net/timer_event.cc:12-22 | over every run an event does not fire before its creation plus its interval |
| TimerRuns.StepWakes | net/timer.cc:91-145 | every operation leaves a non-empty queue with an armed timerfd due by the earliest arrival or 100 ms after it was set |
| TimerRuns.RearmWakes | net/timer.cc:91-119 | the timerfd is set to exactly the earliest arrival, or 100 ms ahead if that has passed |
| TimerRuns.TimerIsSafe | net/timer.cc:32-170 | over every run no timer is lost, no event fires early, and firings of a repeated event are at least its interval apart |
| TimerRuns.TimerFromStart | net/timer.cc:32-170 | the same from an empty timer on |
| TimerRuns.CancelledNeverFires | net/timer.cc:147-170 | over every run a cancelled event stays cancelled, never fires and stays off the queue unless it is added |
| TimerRuns.DeletedNeverFires | net/timer.cc:147-170 | deleting takes an event off the queue at once and keeps it from firing in any later pass |
| Timers.Timer.NewTimerEvent | net/timer_event.cc:12-22 | a new event arrives one interval after the clock reading |
| Timers.Timer.ResetArriveTime | net/timer.cc:91-125 | the timerfd is set to the first arrival, or 100 ms ahead when that has passed |
| Timers.Timer.AddTimerEvent | net/timer.cc:127-145 | the event is inserted and the timerfd is reset only for a new earliest arrival |
| Timers.Timer.DeleteTimerEvent | net/timer.cc:147-170 | the event is cancelled and its entry erased |
| Timers.Timer.CollectDue | net/timer.cc:54-67 | the loop collects the leading due entries and the uncancelled ones among them |
| Timers.Timer.OnTimer | net/timer.cc:32-89 | for every way the clock advances, the loops compute the pass |
| RpcCallSpec.FirstEventDecides | net/rpc/rpc_channel.cc:118-208 | in every interleaving the first deciding event alone settles the closure and the code it sees |
| RpcCallSpec.ClosureOutcome | net/rpc/rpc_channel.cc:33-43 | the closure runs at most once, never when a timeout came first, and sees code 0 exactly for a parsed response with code 0 |
| RpcCallSpec.FlagsOutcome | net/rpc/rpc_channel.cc:118-208 | after every interleaving, with or without a closure: finished exactly when a finishing event came, cancelled exactly when the first of them was the timeout, failed exactly when cancelled or some event was an error, and the code of the last error, which a late event may still set |
| RpcChannels.RpcController.StartCancel | net/rpc/rpc_controller.cc:30-34 | cancelling also marks the call failed and finished |
| RpcChannels.RpcController.SetError | net/rpc/rpc_controller.cc:50-54 | an error sets the code and the failed flag |
| RpcChannels.RpcChannel.CallBack | net/rpc/rpc_channel.cc:33-43 | the closure runs, and finishes the call, only if the call is not finished |
| RpcChannels.RpcChannel.OnTimeout | net/rpc/rpc_channel.cc:119-135 | the timeout task is the timeout event |
| RpcChannels.RpcChannel.OnConnect | net/rpc/rpc_channel.cc:139-152 | the connect callback is the connect event |
| RpcChannels.RpcChannel.OnResponse | net/rpc/rpc_channel.cc:169-208 | the read callback is the response event |
| Text.SplitJoin | net/rpc/rpc_dispatcher.cc:134-140 | splitting at the first separator undoes joining if and only if the first part has no separator |
| Decimal.AtoiReads | net/tcp/net_addr.cc:24 | any white space, an optional sign and digits up to something else are read as the number |
| Decimal.AtoiPrint | net/tcp/net_addr.cc:71-75 | parsing undoes printing for every integer |
| Naming.FindAddrIff | net/rpc/rpc_channel.cc:249-263 | every string: `CheckValid` accepts exactly an ip without a colon and a port reading 1 to 65536; other strings are looked up among the configured stubs |
| Naming.AddrRoundTrip | net/tcp/net_addr.cc:15-75 | a printed address passes `CheckValid` for ports 1 to 65536 and comes back for ports 1 to 65535, in both directions |
| Naming.FieldsIff | net/service_discovery/run_server_discovery.cc:167-170 | the server reads back a command's name and address if and only if the name has no space |
| Naming.CommandMeaning | net/service_discovery/run_time_service_discovery_interface.h:46-70 | a formatted command, lookups included, changes the registry as the dictionary operation it stands for; names in delete commands may hold spaces |
| Naming.CommandAnswer | net/service_discovery/run_server_discovery.cc:166-241 | what the client is told about each command |
| Naming.OtherBuffersChangeNothing | net/service_discovery/run_server_discovery.cc:194-241 | a buffer whose operator is not add, delete or modify leaves every registry as it was |
| Naming.CTextStops | net/service_discovery/run_server_discovery.cc:156-158 | what was received is read up to the first NUL |
| Naming.RegistryHoldsLatest | net/service_discovery/run_server_discovery.cc:158-234 | after any run the registry holds exactly the latest effective add or modify of each name |
| Naming.NamingEndToEnd | net/service_discovery/run_server_discovery.cc:251-258 | a query answers the latest address, which parses back to the registered ip and port, or "unknown host" exactly when there is none |
| Naming.ServiceCenter.Control | net/service_discovery/run_server_discovery.cc:156-241 | the new registry and the text written back for every command, known or not |
| Naming.ServiceCenter.ListServices | net/service_discovery/run_server_discovery.cc:204-206 | the listing has one line per entry, in the order of the names |
| Naming.ListingOnce | net/service_discovery/run_server_discovery.cc:204-206 | a registry has exactly one listing |
| Naming.LinesSplit | net/service_discovery/run_server_discovery.cc:204-206 | every entry has its line among the others |
| Naming.LessIff | net/service_discovery/run_server_discovery.cc:17 | the order of the names is decided by the first differing character, a proper prefix coming first |
| Naming.ServiceCenter.Lookup | net/service_discovery/run_server_discovery.cc:251-258 | the answer to a query |
| MsgIds.NextAddsOne | net/rpc/msg_id_util.cc:34-43 | one step adds exactly one to the decimal value |
| MsgIds.Nth | net/rpc/msg_id_util.cc:34-43 | the k-th id after a seed has the seed's length and the value seed + k |
| MsgIds.IdsNeverRepeat | net/rpc/msg_id_util.cc:18-47 | from a seed to the first all-nines value no id repeats |
| MsgIds.MsgIdUtil.GenMsgID | net/rpc/msg_id_util.cc:18-47 | in every state, seeding, failing to seed, counting up, and the carry that runs off the string after a second seeding |
| MsgIds.DrawIds | net/rpc/msg_id_util.cc:18-47 | a seeding and k more calls return the seed and its k successors, all different |
| MsgIds.SeedDigits | net/rpc/msg_id_util.cc:28-32 | each digit of a seed is its byte modulo 10, so two readings give one seed if and only if they agree modulo 10 |
| MsgIds.MsgIdUtil.Increment | net/rpc/msg_id_util.cc:35-42 | the carry loop and the zeroing loop compute the successor, if and only if the id is not all nines |
| LoopSpec.LoopIsFifo | net/eventloop.cc:118-132 | over every run the tasks added are the tasks taken, then the batch, then the pending ones; the mirror equals the interest set and no epoll_ctl call fails |
| LoopSpec.LoopFromStart | net/eventloop.cc:118-132 | the same from a new loop on |
| LoopSpec.DrainTakesBatch | net/eventloop.cc:126-132 | a drain takes exactly the swapped-out batch, not the tasks it adds |
| LoopSpec.DrainExact | net/eventloop.cc:126-132 | a drain runs every task: it adds exactly the tasks they post, in order, and lists an fd if and only if the last effect on it registers it, or there is none and it was listed |
| LoopSpec.DrainIsSteps | net/eventloop.cc:126-132 | a drain is the turns of the inner loop |
| LoopSpec.RoundTakesPending | net/eventloop.cc:118-132 | one round takes exactly what was pending and leaves exactly what those tasks post |
| LoopSpec.RegistrationReachesKernel | net/eventloop.cc:200-253 | a registration or removal reaches the interest set, at once in the loop's thread and otherwise when its task runs |
| LoopSpec.CallsIssued | net/eventloop.cc:17-45 | exactly one call for each registration, and none for removing what is not registered |
| Eventloops.Eventloop.AddTask | net/eventloop.cc:255-263 | a task is appended to the pending ones |
| Eventloops.Eventloop.AddToEpoll | net/eventloop.cc:17-30 | ADD for an absent fd, MOD for a present one |
| Eventloops.Eventloop.DeleteToEpoll | net/eventloop.cc:33-45 | DEL for a present fd, nothing for an absent one |
| Eventloops.Eventloop.AddEpollEvent | net/eventloop.cc:200-240 | at once in the loop's thread, as a task from any other |
| Eventloops.Eventloop.DeleteEpollEvent | net/eventloop.cc:242-253 | at once in the loop's thread, as a task from any other |
| Eventloops.Eventloop.DrainTasks | net/eventloop.cc:121-132 | the imperative drain computes the drain of the swapped-out queue |
| LogSpec.PipelineKeeps | common/log.cc:80-91 | over every run printed and waiting messages concatenate to the pushed ones without the empty ones, and neither output nor history is taken back |
| LogSpec.OutputIsPrefix | common/log.cc:230-295 | the output is a prefix of what was pushed, even if the stop flag ends the thread early |
| LogSpec.NonEmptyKeeps | common/log.cc:185-193 | of the messages exactly the empty ones are dropped |
| LogSpec.NonEmptyAround | common/log.cc:185-193 | the others keep their order |
| LogSpec.PushWaits | common/log.cc:185-193 | a pushed message waits behind all others |
| LogSpec.SyncedIsPrinted | common/log.cc:80-91 | what is in the buffer of an idle pipe is printed in order once it is synced |
| LogSpec.StopEndsAfterBatch | common/log.cc:230-295 | a raised stop flag ends the thread with the next batch, whatever is queued behind it |
| LogSpec.EndedIsFinal | common/log.cc:230-295 | after the thread has ended nothing is printed |
| LogSpec.RoundIsSteps | common/log.cc:238-294 | a round of the printing thread is the steps it consists of |
| Loggers.Logger.PushLog | common/log.cc:185-193 | a message is appended to the caller's buffer |
| Loggers.Logger.SyncLoop | common/log.cc:80-91 | the buffer is handed over as one batch unless it is empty |
| Loggers.Logger.PrintBatch | common/log.cc:238-294 | a round prints the non-empty lines of the front batch in order |

## Left out

- BufferSpec.MoveRead: is for moves within the readable count, the only ones `decode` makes; the source also accepts a move past the write index that stays below the capacity, which leaves a negative readable count.
- TcpBuffers.TcpBuffer.MoveReadIndex: carries the same condition.
- TinyPBCoder.Decode: a buffer on which the loop does not end has no result; `Streams.DecodeReturnsIff` says which buffers of frames these are.
- TcpConnections.TcpConnection.Excute: carries the same condition as decoding and treats callbacks as atomic, so a callback that registers further ids while replies are being delivered is not modelled.
- Timers.Timer.OnTimer: takes the millisecond clock and the timerfd's clock as one clock, and a firing's time is the pass's reading rather than the moment the callback starts.
- RpcChannels.RpcChannel.CallBack: assumes that the closure does not run the loop again before it returns.
- Loggers.Logger.PrintBatch: the printing thread's round as one call; its interleaving with other threads is in `LogSpec`.
- The socket read and write loops, connection states and half-closing.
- Buffers of 2^31 bytes and more: indices and capacities are unbounded integers, a message's frame length is required to fit an `int`, and `i + pk_len` in the scan is checked for overflow only where the frame would end behind the write index.
- Early exits of `CallMethod` before the timer is set, and calls on a channel that was never initialised.
- Replies on the dispatcher's error branches, which the source never sends.
- Mutual exclusion itself, wake-up liveness through the eventfd, thread start-up and the acceptor.
- Protobuf serialisation, XML configuration, log formatting and files, the fork and signal handling for restarts.
- Round-robin choice of an IO thread, `FdEventGroup`, event masks, `StringCoder`, `RunTime`: only easy members.
