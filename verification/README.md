# ZeroRPC in Dafny

A model of ZeroRPC's C++ sources and proofs about it.  One story runs through it: a call made by a
client comes back with what the one execution of its function came to on the call's own arguments,
through encoding, framing, partial sends, arbitrary chunking, reassembly, dispatch and decoding,
whatever state the functions keep.  Beside it stand the two schedulers (timer and thread pool) and the
eviction of silent clients.

`dafny verify dfyconfig.toml` checks everything.

## How it is built

Objects of the program are classes with the program's fields; vectors, queues and hash tables are
`seq` and `map` fields, the ring buffer is an array.  Each class method is proved against a function
or step relation on values, and the properties are proved about those, mostly over whole runs.

| file | source | what it holds |
|---|---|---|
| `bytes.dfy` | `Common/Buffer.hpp` | bytes, little-endian integers |
| `ring_buffer.dfy` | `Common/Buffer.hpp` | the circular buffer on an array |
| `framing.dfy` | `Core/Channel.cpp` | frames, the cutting loop as a function, reassembly |
| `parse_loop.dfy` | `Core/Channel.cpp` | the cutting loop as written, and when it ends |
| `capacity.dfy` | `Core/Channel.cpp`, `Core/Tcp_Server.cpp` | when the fixed ring overflows, which bodies fit |
| `pipeline.dfy` | `Core/Tcp_Server.cpp`, `Core/Channel.cpp` | sender, network and receiver as a step system |
| `channel.dfy` | `Core/Channel.cpp`, `Core/Tcp_Server.cpp` | the channel object: write, send, read, parse |
| `codec.dfy` | `Core/Data_Stream.h`, `Core/Data_Stream.cpp` | the tagged encoding and its independent decoder |
| `wire_format.dfy` | `Core/Data_Stream.h`, `Core/Data_Stream.cpp`, `RPC/Rpc_Package.h` | the byte format spelled out tag by tag; what is read of bytes no writer writes |
| `data_stream.dfy` | `Core/Data_Stream.h`, `Core/Data_Stream.cpp` | the stream object; growth of its storage |
| `package.dfy` | `RPC/Rpc_Package.h` | requests and responses; exact sizes |
| `rpc.dfy` | `RPC/Rpc_Client.*`, `RPC/Rpc_Server.cpp`, `RPC/Function_Handler.hpp` | client, server and handler objects |
| `protocol.dfy` | the same | calls, promises and messages in flight as a step system |
| `rpc_session.dfy` | the same | client and server objects joined: their methods are the protocol's steps |
| `stack.dfy`, `progress.dfy` | all of the above | the protocol over two pipelines; from where exactly it can go on to resolve every call |
| `timer.dfy`, `timer_schedule.dfy`, `timer_loop.dfy` | `Core/Timer.cpp` | the queue's steps and termination, the schedule over runs, the object |
| `thread_pool.dfy`, `pool_object.dfy` | `Core/Thread_Pool.cpp` | the pool as a step system, the object |
| `heartbeat.dfy` | `RPC/Rpc_User*.cpp`, `Core/Tcp_Server.cpp` | user store, connection tables, eviction over runs |
| `eviction.dfy` | `RPC/Rpc_Client.cpp`, `RPC/Rpc_Server.cpp`, `Core/Timer.cpp` | eviction under the timers that drive heartbeats and checks |

## Where the code and its intent part

- `parse_message` has no exit when a header is known and its body is incomplete: it spins.  The model
  stops there and waits for more bytes; `ParseLoop.ExitsIff` and `ParseLoop.StreamExitsIff` say
  exactly when the loop as written ends, `ParseLoop.SpinsIff` what it does otherwise.  One parser per channel at a time is assumed.
- `read_data` reads up to `BUFFER_SIZE` bytes into a ring of that capacity, so the ring can overflow
  whatever the message sizes (`Capacity.FullReadsMayOverflow`).  `Capacity.NeverOverflowsIff` gives
  the exact chunk size below which it cannot.
- The comment at `Core/Channel.h:15` speaks of 64 KB; the constant is 16392 bytes.
- The project's readme asks for the same compression on both sides.  The code tags every message, so
  any mixture works; the delivery theorems let each message choose its own algorithm.
- An unknown method is answered with the text "Handler not found" that `Handler_Manager::call` throws;
  the branch with "method not found" is never taken.
- A handler that throws an exception with an empty text is resolved at the client as an empty result
  (`Rpc.FailureSeenIff`).
- `get_args` leaves the order of its reads to the compiler; last to first is assumed, as the reversed
  writes of `Rpc_Client::call` expect.  `Codec.FirstToLastReverses` shows what the other order does.
- `Data_Stream::load` copies without resizing; the model makes the bytes readable from position 0.
- `Timer`'s constructor leaves `_running` unset when given an executor; a running timer is modelled,
  and taking an id, reading the clock and queueing are one step.  A period of zero makes the inner
  loop endless (`Timers.PassEndsIff`).
- `Thread_Pool`'s shrink test subtracts unsigned numbers and wraps when fewer threads are there than a
  batch.  With a minimum of 5 or more the pool falls below it whenever a batch is larger.  With a
  minimum of 1 to 4 it does so only with a batch of 6 or more that also fits under the maximum, on a
  host that reports cores: it has to grow first, since the test needs five threads.
  `Pools.MinimumKeptIff` is the exact condition, at the code's own thresholds, whose double products
  round down to four fifths and one fifth.  Starting the pool is one step.
- Closing a descriptor that is already gone inserts location 0 for it and throws
  (`Heartbeat.Connections.CloseConnection`).
- The element-wise branches of `Buffer` advance its indices twice; the memcpy branches, which bytes
  use, are modelled.

## Assumptions

Each name has one signature, agreed between the two sides, and an execution of a function keeps to its
declared result type; functions may keep any state and be registered at any time.  Little-endian hosts;
compression is a lossless pair of functions; call ids, accepted descriptors and
thread ids are fresh; `send` accepts no more than it is offered; the clock does not go back; a vector's
`reserve` allocates exactly what is asked.

## Model

| member | source | states |
|---|---|---|
| RingBuffer.Buffer.Enqueue | Common/Buffer.hpp:123-151 | appends exactly the given bytes to the queue, or refuses and changes nothing exactly when they do not fit |
| RingBuffer.Buffer.Dequeue | Common/Buffer.hpp:94-121 | hands out exactly the oldest bytes in order and keeps the rest, or refuses and changes nothing when there are too few |
| RingBuffer.Buffer.At | Common/Buffer.hpp:54-61 | the i-th queued byte, or an error beyond the size |
| RingBuffer.Buffer.Clear | Common/Buffer.hpp:70-74 | empties the queue |
| RingBuffer.Buffer.Full | Common/Buffer.hpp:76-80 | true exactly when no byte fits any more |
| RingBuffer.Buffer.Size | Common/Buffer.hpp:88-92 | the length of the queue |
| RingBuffer.AppendToWindow | Common/Buffer.hpp:132-149 | the two-part copy from the tail appends to the FIFO sequence for every head, size and capacity |
| RingBuffer.TakeFromWindow | Common/Buffer.hpp:102-110 | the two-part copy out yields the oldest elements of the FIFO sequence |
| RingBuffer.DropFromWindow | Common/Buffer.hpp:119-120 | moving the head drops exactly the oldest elements and keeps the tail where it was |
| Bytes.LittleEndianTruncates | Common/Buffer.hpp:160-185 | reading back the low bytes of an integer gives it modulo the width |
| Bytes.LittleEndianAt | Common/Buffer.hpp:177-185 | byte i is the i-th base-256 digit, least significant first |
| Framing.DecodeEncode | Core/Channel.cpp:62-121 | decoding an encoded payload gives it back, whichever algorithm its tag names |
| Framing.HeadRoundTripIff | Core/Channel.cpp:14-34 | the receiver recovers a body length exactly when it is below 2^31 (or within 2^31 of 2^64) |
| Framing.ParseQuiet | Core/Channel.cpp:27-52 | the cutting loop stops only with a short header or a short body, and parsing again changes nothing |
| Framing.ParseEarly | Core/Channel.cpp:27-52 | on every byte stream, parsing before more bytes arrive makes no difference in the end |
| Framing.ChunkingIrrelevant | Core/Channel.cpp:27-52 | on every byte stream, however chunked, parsing after each chunk ends as parsing everything at once |
| Framing.ParseHolds | Core/Channel.cpp:27-52 | parsing keeps: delivered payloads are the first ones sent, and their frames with header and ring are the bytes taken in |
| Framing.QuietHasCutAll | Core/Channel.cpp:27-52 | a receiver that stops has delivered every frame lying wholly in its bytes |
| Framing.Reassembly | Core/Channel.cpp:27-52 | however the start of a sender's stream is chunked, exactly the payloads of its whole frames are delivered and exactly the rest is kept |
| ParseLoop.ExitsIff | Core/Channel.cpp:27-52 | on every input the loop as written ends exactly when cutting ends without a header waiting for its body |
| ParseLoop.SpinsIff | Core/Channel.cpp:27-52 | otherwise, from some turn on, every turn leaves the very state it found: a header and too short a body |
| ParseLoop.StreamExitsIff | Core/Channel.cpp:27-52 | on a sender's stream it ends exactly when at most four bytes lie behind the last whole frame taken in |
| Capacity.ResidueBound | Core/Channel.cpp:28-51 | a stopped receiver holds at most max(4, M-1) bytes, M the longest body |
| Capacity.NeverOverflowsIff | Core/Tcp_Server.cpp:165-188 | no stream of bodies up to M in chunks up to C ever overflows the ring, exactly when C + max(4, M-1) is at most the capacity |
| Capacity.LargeChunkOverflows | Core/Tcp_Server.cpp:165-188 | beyond that bound there is a stream and a chunking that overflow |
| Capacity.FullReadsMayOverflow | Core/Tcp_Server.cpp:168-182 | reading as many bytes as the ring holds can overflow whatever the longest body |
| Capacity.CanDeliverIff | Core/Channel.cpp:28-51 | some chunking delivers a message without overflow exactly when its body fits the ring |
| Capacity.PayloadFitsIff | Core/Channel.cpp:62-90 | a payload can be delivered exactly when it and one byte fit the ring, and under Brotli exactly when its compressed form and one byte do |
| Pipeline.TrySendConserves | Core/Tcp_Server.cpp:202-225 | whatever the socket accepts, bytes sent followed by bytes still queued are the bytes queued before, and drained means empty |
| Pipeline.TrySendEnds | Core/Tcp_Server.cpp:202-225 | if send never answers zero the loop ends within as many calls as bytes are waiting |
| Pipeline.TrySendExact | Core/Tcp_Server.cpp:202-225 | the loop sends exactly what the answers before the first refusal accept, goes on until nothing is queued, and stops at a refusal only when it comes to it |
| Pipeline.PushAppends | Core/Channel.cpp:14-20 | queueing a frame adds its bytes after all unsent ones |
| Pipeline.StepKeeps | Core/Tcp_Server.cpp:165-225 | every write, partial send, read and parse keeps the conservation invariant |
| Pipeline.Delivery | Core/Tcp_Server.cpp:165-231 | in every run, delivered payloads are a prefix of those written; without overflow every written byte is in exactly one place; once nothing is unsent, in flight or uncut all are delivered |
| Pipeline.DeliveredOnce | Core/Channel.cpp:53-58 | deliveries are never taken back and never run ahead of what is written |
| Pipeline.RunNeverCrashes | Core/Tcp_Server.cpp:165-188 | a run that parses after every read, in chunks that fit beside the largest residue, never overflows |
| Pipeline.SendsAreSteps | Core/Tcp_Server.cpp:202-225 | the sending loop is a path of single sends of the step system |
| Pipeline.ReadsAreSteps | Core/Tcp_Server.cpp:165-188 | the reading loop is a path of reads and parses of the step system, overflow included |
| Channel.SocketChannel.EncodeString | Core/Channel.cpp:62-90 | a zero byte and the payload where the algorithm is plain, a one byte and the compressed payload where it is Brotli |
| Channel.SocketChannel.DecodeString | Core/Channel.cpp:92-121 | behind a zero byte the payload as it stands, behind a one byte its decompression, nothing where the tag is missing or unknown |
| Channel.SocketChannel.WriteData | Core/Channel.cpp:14-25 | bytes sent and bytes still queued are those queued before, then the body's length in four bytes and the body under its algorithm's tag; the sending is that of the sending loop |
| Channel.SocketChannel.TrySend | Core/Tcp_Server.cpp:202-231 | for every series of socket answers, bytes sent, remaining queue, offset and outcome are those of the sending function |
| Channel.SocketChannel.CutFrames | Core/Channel.cpp:28-52 | the loop over ring and pending length computes exactly the parsing function |
| Channel.SocketChannel.HandOver | Core/Channel.cpp:53-58 | hands over all read messages in order and leaves none |
| Channel.SocketChannel.ParseMessage | Core/Channel.cpp:27-59 | delivers the parsed payloads in order and leaves the parsed state |
| Channel.SocketChannel.ReadData | Core/Tcp_Server.cpp:165-188 | over all chunks, delivers what reading them into the ring delivers, and reports overflow exactly when a chunk does not fit |
| Channel.SocketChannel.SetCompressAlgo | Core/Channel.cpp:123-125 | changes nothing already queued or received |
| Codec.RoundTrip | Core/Data_Stream.h:197-312 | for every well-typed value in any visiting order, reading what was written, before any suffix, gives the value and stops at the suffix |
| Codec.LeafRoundTrip | Core/Data_Stream.cpp:35-191 | the same for each primitive type and for strings |
| Codec.PrefixFree | Core/Data_Stream.h:197-312 | the encoding of each type is injective and prefix-free |
| Codec.MapOrderIrrelevant | Core/Data_Stream.h:295-312 | entries assigned in any order give the same map |
| Codec.VisitMeans | Core/Data_Stream.h:255-312 | any order of visiting a value's sets and maps, at any depth, means that value |
| Codec.OrderIrrelevant | Core/Data_Stream.h:333-390 | two writers that visit a value in different orders are read alike, so ordered and unordered containers read each other's bytes |
| Codec.SomeVisit | Core/Data_Stream.h:255-276 | every well-typed value can be visited and written |
| Codec.ArgsRoundTrip | Core/Data_Stream.h:173-183 | every argument list written last to first and read last type to first is rebuilt in order |
| Codec.FirstToLastReverses | Core/Data_Stream.h:173-176 | read first to last, under types that read the same both ways, arguments come back reversed, so rightly only when they too read the same both ways |
| Codec.FirstToLastRefused | Core/Data_Stream.h:173-176 | where a list of types first differs from its reverse in an outermost type, reading first to last is refused |
| WireFormat.LeafWire | Core/Data_Stream.cpp:35-96 | a primitive or a string is its type's tag byte, 0 to 6, and its value, low byte first, two's complement, a string behind its tagged length |
| WireFormat.NodeWire | Core/Data_Stream.h:197-276 | a vector, list, map or set is its tag byte, 7 to 10, its number of elements or entries as a tagged integer, and its parts; a custom object is tag 11 and its parts |
| WireFormat.PartsInOrder | Core/Data_Stream.h:197-276 | each part stands exactly between those before it and those after it |
| WireFormat.SequenceMeans | Core/Data_Stream.h:219-253 | the i-th part of a vector, list or custom object is its i-th element |
| WireFormat.SetMeans | Core/Data_Stream.h:278-293 | a set holds exactly its parts |
| WireFormat.MapMeans | Core/Data_Stream.h:295-312 | key before value, a later entry overriding an earlier one of the same key |
| WireFormat.TypedIff | Core/Data_Stream.cpp:35-96 | exactly the values of their width can be written, and strings below 2^31 bytes |
| WireFormat.SequenceTypedIff | Core/Data_Stream.h:197-264 | a vector, list or set can be written exactly when its parts can and its number of them is below 2^31 |
| WireFormat.NonzeroIsTrue | Core/Data_Stream.cpp:98-106 | any byte but zero is read as true |
| WireFormat.NegativeCountIsEmpty | Core/Data_Stream.h:219-312 | a negative number of elements is read as an empty container, and reading goes on behind the number |
| WireFormat.StreamWire | Core/Data_Stream.h:161 | a stream inside another is tag 11, its endianness flag, each of its bytes behind a tag of its own, and its position |
| WireFormat.PackageWire | RPC/Rpc_Package.h:12-26 | a request is method name, arguments and id in this order, a response result, error text and id |
| Streams.DecodeShaped | Core/Data_Stream.h:219-312 | what is read is built like an object of the type |
| Streams.MergeDefault | Core/Data_Stream.h:178-183 | reading into a fresh object gives the value read |
| Streams.ReadAddsToTarget | Core/Data_Stream.h:278-312 | for every visiting order, what reading a written value into an existing object leaves: the union for a set, the target overridden for a map, for a custom object what each field gives into its own field, and otherwise, strings included, just the value written |
| Streams.CapForIsLeast | Core/Data_Stream.cpp:19-33 | the doubling loop settles on the least sufficient doubling of the capacity |
| Streams.CapForBounds | Core/Data_Stream.cpp:19-33 | growth at least doubles, stays below twice the need, and keeps powers of two |
| Streams.GrowthAmortised | Core/Data_Stream.cpp:11-33 | over any series of writes to a fresh stream, capacity and bytes ever moved stay below twice the bytes written |
| Streams.DoubleUntil | Core/Data_Stream.cpp:24-30 | the loop ends at the capacity the growth lemmas speak of |
| Streams.DataStream.Reserve | Core/Data_Stream.cpp:19-33 | the capacity becomes its least sufficient doubling, the bytes moved grow by those stored exactly when it changes, contents stay |
| Streams.DataStream.WriteMemory | Core/Data_Stream.cpp:11-17 | appends the bytes, keeps the read position, keeps storage within its bound |
| Streams.DataStream.WriteLeaf | Core/Data_Stream.cpp:35-95 | appends the encoding of a primitive or a string |
| Streams.DataStream.Write | Core/Data_Stream.h:197-276 | appends the encoding of a value of any depth |
| Streams.DataStream.WriteArgs | RPC/Rpc_Client.h:60-66 | appends the arguments last to first |
| Streams.DataStream.Load | Core/Data_Stream.cpp:225-229 | makes the given bytes readable from the start; behind them stays what an earlier, longer content had there |
| Streams.DataStream.ReadLeaf | Core/Data_Stream.cpp:98-191 | reads one primitive or string and stops behind it, or refuses another tag and moves nothing |
| Streams.DataStream.ReadElements | Core/Data_Stream.h:219-253 | the element loop rebuilds the whole sequence |
| Streams.DataStream.ReadInserting | Core/Data_Stream.h:278-293 | the set afterwards is the target's elements and those read |
| Streams.DataStream.ReadAssigning | Core/Data_Stream.h:295-312 | the map afterwards is the target overridden by the entries read |
| Streams.DataStream.Deserialize | Core/enable_serializable.h:24-33 | reads the fields in order into the existing ones, or refuses having consumed one byte |
| Streams.DataStream.Read | Core/Data_Stream.h:219-312 | reads a value of any type into an existing object and stops exactly behind it: a primitive, string, vector or list becomes what was read, a set the union, a map the target overridden; another tag is refused |
| Streams.DataStream.GetArgs | Core/Data_Stream.h:173-183 | yields the argument list and stops behind it |
| Package.StreamMeans | Core/Data_Stream.h:161 | a stream written inside another is well-typed and comes back with its bytes and position |
| Package.StreamSize | Core/Data_Stream.h:161 | a stream of n bytes takes 2n+14 |
| Package.RequestRoundTrip | RPC/Rpc_Package.h:12-18 | a request read from its own bytes is the request, with nothing left over |
| Package.ResponseRoundTrip | RPC/Rpc_Package.h:20-26 | a response read from its own bytes is the response, with nothing left over |
| Package.RequestSize | RPC/Rpc_Package.h:12-18 | a request with a 36-character id, m bytes of method name and n of arguments takes 63+m+2n |
| Package.ResponseSize | RPC/Rpc_Package.h:20-26 | a response with m bytes of error and n of result takes 63+m+2n |
| Package.RequestFitsIff | Core/Channel.h:15 | an uncompressed request can get through exactly when m+2n is at most 16328 |
| Package.ResponseFitsIff | Core/Channel.h:15 | the same for a response, error text in place of method name |
| Rpc.CallComesBack | RPC/Rpc_Server.cpp:26-54 | a call encoded, dispatched, answered and decoded resolves to whatever this execution of its function came to, run on the call's own arguments, under its own id; or to "Handler not found" |
| Rpc.ResultReadBack | RPC/Rpc_Client.h:82-88 | the caller reads exactly the value that execution returned |
| Rpc.FailureSeenIff | RPC/Rpc_Client.cpp:22-31 | the caller sees an exception exactly when the function is unknown or this execution threw a non-empty text, and sees that very text; nothing returned and an empty text both reach it as an empty result |
| Rpc.HandlerManager.RegisterHandler | RPC/Function_Handler.hpp:56-61 | the name now leads to the new function with its signature, others as before |
| Rpc.HandlerManager.Call | RPC/Function_Handler.hpp:63-70 | the registered function is run on the decoded arguments; its result of this time encoded, or what it threw |
| Rpc.RpcServer.OnReadMessage | RPC/Rpc_Server.cpp:26-54 | decodes the request, runs the function of its name on the arguments decoded as its signature says, replies under the request's id with the encoded value, nothing, or the thrown text, or "Handler not found", and refreshes exactly that client's heartbeat |
| Rpc.RpcClient.StartCall | RPC/Rpc_Client.h:55-80 | registers a fresh unresolved promise under the id and yields the encoded request of id, name and arguments written last to first |
| Rpc.RpcClient.OnReadMessage | RPC/Rpc_Client.cpp:15-32 | resolves and forgets exactly the promise of the response's id, if pending: with the result where the error text is empty, else with the error |
| Rpc.RpcClient.FinishCall | RPC/Rpc_Client.h:82-88 | yields the value at the start of the result |
| Protocol.StepKeeps | RPC/Rpc_Client.cpp:15-32 | each step, registering included, keeps every call's one message in one place, the promises equal to the unresolved calls, and the executions equal to the calls answered |
| Protocol.InFlightIsPending | RPC/Rpc_Client.h:73-80 | registering before sending: a call with anything unsent or in flight is pending |
| Protocol.CallsResolveRightly | RPC/Rpc_Server.cpp:26-54 | in every run with any overtaking and any outcomes, each call's function is run at most once, on the call's own arguments; each call is resolved at most once, with what that execution came to; none registered in time is missed; pending is begun minus resolved, and every message can be handled |
| Protocol.RegisteredCallsRun | RPC/Function_Handler.hpp:63-70 | in every run, a call begun after its function was registered is, once dealt with, one execution of that function on the call's own arguments |
| Protocol.PureCallsResolve | RPC/Function_Handler.hpp:20-31 | calls of a function without state resolve to what it makes of their arguments |
| Protocol.DistinctStayDistinct | readme.md:158-182 | a function that never comes to the same twice, as one handing out ids, never gives two calls the same |
| Session.RpcSession.Register | RPC/Rpc_Server.h:43-47 | registering a function with the server object is the protocol's registering step, at any time, and the name leads to it from then on |
| Session.RpcSession.Begin | RPC/Rpc_Client.h:55-76 | calling the client object is the protocol's beginning step: it hands out a fresh promise, holds the encoded request of exactly that call, and notes whether the function was registered by then |
| Session.RpcSession.Transmit | RPC/Rpc_Client.h:78 | sending the request is the protocol's transmitting step: exactly its bytes join those on the way |
| Session.RpcSession.Serve | RPC/Rpc_Server.cpp:26-54 | the server object's callback is the protocol's serving step: the one run it adds is that of the call's own function on the call's own arguments, coming to what the function does with them this time, or a miss exactly when none is registered |
| Session.ServedAs | RPC/Rpc_Server.cpp:26-39 | the request a server holds is that of a call begun, and reads as its name and its own arguments |
| Session.RpcSession.Receive | RPC/Rpc_Client.cpp:15-32 | the client object's callback is the protocol's receiving step: the promise of the response's id gets its result or its error, and exactly that call ceases to be pending |
| Session.RpcSession.AllKept | RPC/Rpc_Client.h:80-88 | at every moment each resolved promise holds what the one execution of its call came to, and once nothing is unsent or in flight every promise ever handed out is resolved |
| Stack.StepKeeps | RPC/Rpc_Client.h:55-89 | over two byte pipelines each step is a step, or no step, of the protocol |
| Stack.AlwaysOpen | RPC/Rpc_Client.h:55-76 | in every state a function can be registered and a fresh call begun |
| Stack.CallsComeBack | RPC/Rpc_Server.cpp:26-54 | in every run of the whole stack, whatever the functions come to, each call is executed at most once on its own arguments and resolved at most once with what that came to, and once nothing is waiting anywhere every call is resolved |
| Progress.RunNeverCrashes | Core/Tcp_Server.cpp:165-188 | reads cut after each chunk, in chunks that fit beside the largest residue, never overflow the ring of either side |
| Progress.StepLowers | RPC/Rpc_Client.h:55-89 | every sending, moving, cutting, serving or receiving step lowers the work left, whoever is scheduled |
| Progress.CanStep | RPC/Rpc_Server.cpp:26-54 | no deadlock: while a call is pending and what is under way fits, some such step is possible and overflows nothing, whatever the functions come to |
| Progress.EveryCallCanComeBack | RPC/Rpc_Client.h:55-89 | for any server whose outcomes depend on everything run before: from every state of every run in which what is under way fits and its answers will, compressed or not, some continuation without new calls resolves every call with that server's outcomes |
| Progress.ResolvableIff | Core/Channel.cpp:28-51 | in every state of every run some continuation resolves every call exactly when every undelivered frame, every request to be sent and some answer to each call yet to be served fits, compressed or not, a ring that has not overflowed |
| Timers.FireDecreases | Core/Timer.cpp:46-59 | each turn of the inner loop lowers the number of due instants left up to now, though periodic timers are queued again |
| Timers.PassEndsIff | Core/Timer.cpp:46-59 | the inner loop ends exactly when no due, unremoved periodic timer has a wait of zero or less |
| Schedule.FireKeeps | Core/Timer.cpp:46-59 | firing or dropping keeps every timer at its next due instant and the log in order |
| Schedule.LiveExact | Core/Timer.cpp:41-62 | between passes an unremoved timer has fired for every due instant up to the last pass |
| Schedule.ExactlyDueUnique | Core/Timer.cpp:7-25 | the schedule fixes the number of firings |
| Schedule.FiresExactlyWhenDue | Core/Timer.cpp:41-62 | in every run each timer has fired for exactly its due instants create+wait+1ms+k*wait up to the last pass, or the last before its removal, without drift, and firings never go back in due time |
| Schedule.FiresAsAsked | Core/Timer.cpp:7-79 | in every run, a timer asked for in some step and removed in none so far has fired at exactly the instants now+wait+1ms+k*wait up to the last pass, once only if not periodic |
| Schedule.RemovedNeverFires | Core/Timer.cpp:36-39 | a removed id never fires again, whether its timer was made before or after |
| Schedule.RemovalStopsFiring | Core/Timer.cpp:36-51 | in every run, from the step that removes it on a timer fires no more |
| TimerLoop.Timer.CreateTimer | Core/Timer.cpp:68-79 | queues the timer, periodic or not as asked, one period and a millisecond from now under the next id, and is the creating step of the schedule |
| TimerLoop.Timer.RemoveTimer | Core/Timer.cpp:36-39 | adds exactly that id to those removed, touches nothing queued, and is the removing step of the schedule |
| TimerLoop.Timer.FireTop | Core/Timer.cpp:47-58 | one turn of the inner loop takes an earliest timer: it fires once for its due instant unless removed, and is queued again exactly when periodic and not removed |
| TimerLoop.Timer.RunPass | Core/Timer.cpp:43-60 | a pass goes through firing steps only, leaves every queued timer due strictly after now, and is the passing step of the schedule |
| Pools.StepKeeps | Core/Thread_Pool.cpp:16-153 | every critical section keeps counters and tasks in order |
| Pools.StepOwes | Core/Thread_Pool.cpp:16-153 | every critical section before stop keeps a thread beyond the minimum for each exit owed, unless the daemon owes exits with less than a batch of threads |
| Pools.ThreadsWithinLimits | Core/Thread_Pool.cpp:16-47 | with a batch up to the minimum, in every run and for any thresholds, before stop: min plus owed exits at most threads at most max, threads are the tracked ones, and the shrink subtraction never wraps |
| Pools.CountersCount | Core/Thread_Pool.cpp:117-153 | in every run of every pool whose largest sum fits 32 bits the counters are the numbers of busy threads, io at most working at most threads, and their difference never wraps |
| Pools.TasksAccountedFor | Core/Thread_Pool.cpp:86-153 | in every run of every such pool committed tasks are started ones then queued ones, each starts and finishes at most once, and started ones are running or finished |
| Pools.NoneStartsAfterStop | Core/Thread_Pool.cpp:131-138 | no task starts once stop is set |
| Pools.StopStopsWork | Core/Thread_Pool.cpp:98-138 | in every run, from the step that stops the pool on no task starts |
| Pools.ReadyWorker | Core/Thread_Pool.cpp:121-142 | before stop a ready worker waits exactly when nothing is queued, and otherwise starts exactly the oldest task, of either kind |
| Pools.CanWork | Core/Thread_Pool.cpp:117-153 | no deadlock: while a task is queued or running, and more threads are there than exits owed, some worker can take a step that brings the end nearer |
| Pools.TasksCanFinish | Core/Thread_Pool.cpp:117-153 | from every such state of every run, steps of workers alone can finish every task committed |
| Pools.SafePoolsCanFinish | Core/Thread_Pool.cpp:117-153 | so from every state before stop of every run under limits that keep a minimum of at least one thread |
| Pools.DaemonArithmetic | Core/Thread_Pool.cpp:24-37 | the daemon's sum and its difference of counters never wrap, and its subtraction of a batch wraps exactly when fewer threads are there |
| Pools.ShrinkTestSoundIff | Core/Thread_Pool.cpp:34-37 | the shrink test protects the minimum for every thread count exactly when a batch is no more than the minimum |
| Pools.LargeBatchShrinks | Core/Thread_Pool.cpp:34-41 | whenever a batch exceeds a minimum of 5 or more, a run at the code's thresholds takes the idle pool below its minimum |
| Pools.SmallPoolShrinks | Core/Thread_Pool.cpp:25-41 | with a minimum of 1 to 4 and a batch of 6 or more that fits under the maximum, a run does so after growing once |
| Pools.MinimumKeptIff | Core/Thread_Pool.cpp:25-41 | for every pool whose largest sum fits 32 bits, every run at the code's thresholds keeps the minimum exactly when a batch is no more than it, or it is 0, or it is below 5 and a batch is at most 5, does not fit under the maximum, or no cores are reported |
| PoolObject.ThreadPool.Promises | Core/Thread_Pool.cpp:16-153 | at every moment of the object's life: its counters count its threads, its tasks are accounted for, and before stop it keeps its minimum under those limits |
| PoolObject.ThreadPool.ExpendThreadPool | Core/Thread_Pool.cpp:65-72 | adds exactly that many ready threads, keeps the others where they are, and counts them |
| PoolObject.ThreadPool.DaemonTask | Core/Thread_Pool.cpp:22-44 | one round adds exactly a batch of ready threads, or owes exactly a batch of exits, or does nothing, each exactly under the code's thresholds, the wrapping of the unsigned difference included |
| PoolObject.ThreadPool.CommitTask | Core/Thread_Pool.cpp:86-96 | queues exactly that task, of that kind, behind all others |
| PoolObject.ThreadPool.EnterWork | Core/Thread_Pool.cpp:118-142 | a worker leaves exactly when stop is set, waits exactly when nothing is queued and stop is not set, and otherwise starts the oldest task, whatever its kind, and counts it |
| PoolObject.ThreadPool.WakeWork | Core/Thread_Pool.cpp:121-142 | a woken worker leaves exactly when an exit is owed, paying it, and otherwise does as one that enters |
| PoolObject.ThreadPool.FinishWork | Core/Thread_Pool.cpp:146-151 | the task is finished, its thread is ready again, and exactly the counters it raised are lowered |
| PoolObject.ThreadPool.StopPool | Core/Thread_Pool.cpp:98-100 | sets stop and leaves queue, threads and tasks as they are |
| Heartbeat.RpcUserManager.CreateUser | RPC/Rpc_User_Manager.cpp:7-12 | the user is last heard of now, others as before; for a new descriptor this is the connecting event of the runs |
| Heartbeat.RpcUserManager.UpdateHeartbeat | RPC/Rpc_User_Manager.cpp:14-17 | only that user is refreshed, which is the request event of the runs |
| Heartbeat.RpcUserManager.CheckInvalidUser | RPC/Rpc_User_Manager.cpp:19-28 | looks at every user once, in some order, and lists exactly those silent for more than 15 seconds at their own reading of the clock |
| Heartbeat.RpcUserManager.RemoveUser | RPC/Rpc_User_Manager.cpp:30-35 | only that user is forgotten, which is the closing event of the runs |
| Heartbeat.Connections.Accept | Core/Tcp_Server.cpp:139-148 | the three tables gain the same connection |
| Heartbeat.Connections.CloseConnection | Core/Tcp_Server.cpp:190-200 | the three tables lose the same connection; a descriptor already gone throws and leaves a stray location |
| Heartbeat.Connections.Evict | RPC/Rpc_Server.cpp:64-71 | closes every user silent when the check begins, and none not silent when it ends |
| Heartbeat.LastHeard | RPC/Rpc_User.cpp:12-14 | in every run a user's time is that of the last event from it, and it was not closed since |
| Heartbeat.PunctualStays | RPC/Rpc_User_Manager.cpp:19-28 | a client that while connected is never silent for more than 15 seconds is never returned for closing, however often it leaves and its descriptor is used again |
| Heartbeat.SilentEvicted | RPC/Rpc_Server.cpp:64-71 | with checks every 15 seconds a client that falls silent, even before the first check, is returned at exactly the first check more than 15 seconds later, within 30 |
| Eviction.DueFired | Core/Timer.cpp:41-62 | every due instant of a periodic timer never removed has fired by the last pass |
| Eviction.BeatingStays | RPC/Rpc_Client.cpp:38-40 | a client whose timer keeps firing and whose heartbeats are each served within a lag is never returned for closing, if period and lag come to at most the timeout |
| Eviction.FiveSecondBeatsStay | RPC/Rpc_Client.cpp:38-40 | with the program's timer, set before connecting, heartbeats served less than ten seconds after falling due keep the client |
| Eviction.SilentEvictedLate | RPC/Rpc_Server.cpp:64-71 | with checks each following a timer's firing within a lag, a client that falls silent is returned within timeout, period and lag |
| Eviction.FifteenSecondChecksEvict | RPC/Rpc_Server.cpp:64-71 | with the program's check timer, within thirty seconds and the lag, whenever the client was last heard of |

## Left out

- Streams.DataStream.Read: where a nested tag does not match, or the bytes end early, the program goes on with unread or uninitialised values; the contract covers what a matching writer wrote and a mismatch of the outermost tag.
- Streams.DataStream.ReadLeaf: the same; bytes cut short are read past their end by the program.
- Streams.DataStream.ReadElements: the same, for the elements.
- Streams.DataStream.ReadInserting: the same, for the elements.
- Streams.DataStream.ReadAssigning: the same, for keys and values.
- Streams.DataStream.Deserialize: the same, for the fields.
- Streams.DataStream.GetArgs: the same, for the arguments; their reads' results are dropped by the program.
- Streams.DataStream.Load: bytes beyond an earlier content's length lie in reserved storage; they count as readable.
- Rpc.HandlerManager.Call: arguments that do not decode for the function, as above.
- Rpc.RpcServer.OnReadMessage: requests that do not decode, as above, and descriptors whose user is gone, where the program dereferences null.
- Rpc.RpcClient.OnReadMessage: responses that do not decode, as above.
- Rpc.RpcClient.FinishCall: results that do not decode to the wanted type, such as an empty one, where the program returns an uninitialised value.
- Channel.SocketChannel.CutFrames: stops at an incomplete body, where the program's loop spins; `ParseLoop.ExitsIff` says when.
- Channel.SocketChannel.ParseMessage: the same.
- TimerLoop.Timer.RunPass: one pass under the lock, in states where it ends (`Timers.PassEndsIff`); the endless outer loop and its stop flag are not modelled, and callbacks do not call the timer.
- Heartbeat.RpcUserManager.UpdateHeartbeat: for a descriptor with a user; the program dereferences null otherwise.
- Heartbeat.Connections.Evict: closes without other steps between.
- Package.RequestFitsIff: for bodies below 2^31 bytes, beyond which the header itself is wrong; likewise the response.
- Heartbeat.PunctualStays: checks, at one reading of the clock, and requests are single steps; a request for a user already removed, which the program would answer by a null dereference, is not a step.
- Schedule.FiresExactlyWhenDue: for waits that are not negative and periods that are positive; `Timers.PassEndsIff` says what happens otherwise.
- Stack.CallsComeBack: one client and its server; other clients have channels of their own.
- Progress.EveryCallCanComeBack: that a way on exists and that steps run out, not that a scheduler takes it; rings hold more than a header.
- Progress.ResolvableIff: the same.
- Protocol.CallsResolveRightly: an execution is one step; two that overlap in time are ordered by their answers.
- Rpc.HandlerManager.RegisterHandler: in runs, a name keeps its signature when registered again.
- Codec.FirstToLastRefused: nothing on types that first differ inside an outermost type; two empty vectors of different types read alike.
- Sockets, epoll, errno, accepting and listening: only what send accepts and what read returns remain.
- The client's own send and read loops: the client's send drops the rest of a short write and its read loop tests errno after success; the server's loops stand for both ends.
- The compression library itself, and its failures.
- Threads, mutexes and wake-ups beyond one step per critical section; that workers can finish every task is proved (`Pools.TasksCanFinish`), not that a scheduler lets them.
- Floating-point values are their 4 or 8 bytes, equal when those are equal; a custom type's own ordering in sets and maps is taken to agree with equality.
- Big-endian hosts, UUID generation, logging, the pool monitor, singletons, `std::any`.
- Duplicate delivery to a promise, and the caller's blocking wait on its future.
- `write(const char*)`, which writes the string up to its terminator; `operator[]` of the buffer, which is `at` unchecked.
- Writing through the reference that `at` and `operator[]` return.
