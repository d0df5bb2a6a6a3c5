# A verified model of the socket message server and its client SDK

The program is a chat server on epoll with a worker pool and a C++ client SDK. Both ends frame
messages on a TCP stream, hold bytes in bounded buffers, and encode nested records by hand. This
project models that behaviour in Dafny and proves what it is meant to keep. `dafny verify
dfyconfig.toml` checks all of it.

## How it is built

Code that changes state step by step is a class or a method over real arrays, maps and sequences;
its `ensures` tie the new state to a specification function. What threads do together is a state
machine whose steps are the program's locked sections and atomic updates; a step that is not
possible changes nothing, so a run is any sequence of events, and theorems hold after every one.
The methods of the classes are proved to be those steps, and their objects carry the run they are in, so
that what is proved of all runs holds of them.

| file | models |
|---|---|
| `Bytes.dfy` | bytes, little-endian 32-bit integers, C strings, memcpy and memmove |
| `Framing.dfy` | the length-prefixed frame, the read callback's parser, chunking |
| `ClientSocket.dfy` | one endpoint: `Recv`, `Write`, `Send` over two bounded arrays and a kernel that moves any number of bytes |
| `Delivery.dfy`, `Totals.dfy` | one direction of a connection end to end; the counters all connections share |
| `Interest.dfy` | the epoll record of a client and the operations that keep it in step with two flags |
| `Readiness.dfy` | the server's readiness protocol with event thread, tasks and writers |
| `SocketControl.dfy` | the control object over real sockets, as steps of that protocol and of the client table |
| `ClientTable.dfy` | connects, competing closes, the counter and the notices |
| `Records.dfy`, `RoundTrip.dfy`, `DataTypes.dfy` | the records and their layout, what decoders read back from encoded bytes, and the classes that encode and decode in place |
| `Dispatch.dfy` | the size gate and handler lookup of both ends |
| `Relay.dfy`, `DataHandler.dfy` | what handling a package does and what clients read of it, and the handler object that does it |
| `Sdk.dfy`, `EndToEnd.dfy` | the SDK's interface object, and chat messages from application to application |
| `Blocks.dfy`, `Memory.dfy` | the size-class allocator as a state, and its classes over a heap |
| `ThreadPool.dfy`, `MySqlPool.dfy` | the worker pool and the connection pool |
| `Counting.dfy` | counting by truth values |

The two ends share one model where their code is the same: the SDK's copies of the socket buffers
(`socket_message_client/socket_message_sdk/ClientSocket.cpp:73-126` and `:224-287`), of the parser
(`socket_message_client/socket_message_sdk/SocketControl.cpp:92-113`) and of the records
(`socket_message_client/socket_message_sdk/DataType.h`) do what the server's do.

## Where the code does not do what it is for

The model follows the code. Each case below is proved, with the exact condition under which the code
does what is wanted.

- List counts and string sizes are written as 4-byte integers and read through one `char`: lists come
  back exactly when no count exceeds 127 (`RoundTrip.GroupListRoundTrip`, `RoundTrip.LargeGroupLosesUsers`).
  The decoders take the reader as a parameter, `AsWritten` or `Intended`, and one proof serves both.
- `DataMsg::UnSerialize` advances its cursor once more than `Serialize` does, so the extension is
  never read from where it was written (`RoundTrip.CursorNeverAligned`). `RoundTrip.ExtendFound` gives what
  is read instead, for every record; the extension survives only by chance (`RoundTrip.ExtendSurvivesIff`).
  In two cases the read leaves the memory: `Relay.RelayLostIff` says when the server loses a message so,
  `Sdk.ChatArrives` when a receiver does. The common case is a short text with an empty extension.
- The parser's test is strict, so a last payload of length zero waits for another byte
  (`Delivery.DeliveredCompletely`, `Delivery.EmptyPayloadWaits`).
- The server's send task arms write interest again even after it has emptied the buffer
  (`Readiness.IdleWriterStaysArmed`). Nothing is stranded, but "armed exactly when data is pending" holds in
  a quiet state exactly when the last operation on write interest was not such a re-arm
  (`Readiness.ArmedMeansPendingIff`).
- A password of 32 bytes or more is sent without a terminator (`Sdk.PasswordArrivesIff`).

## Model

| member | source | states |
|---|---|---|
| Framing.FrameShape | socket_message_server/SocketHead.h:15-22 | A frame is the 4-byte length and the payload; the length field decodes to the payload's length and the bytes behind it are the payload |
| Framing.BuildFrame | socket_message_server/SocketControl.cpp:93-101 | The bytes handed to Write are the encoded length followed by exactly the caller's data |
| Framing.ReadCallback | socket_message_server/SocketControl.cpp:378-403 | The loop over the real buffer cuts the same packages, eats the same number of bytes and counts the same totals as the recursive parse of those bytes, including the throw on a negative length |
| Framing.ChunkingIndependence | socket_message_server/SocketControl.cpp:378-403 | Parsing a, compacting, and parsing the remainder with b behind it gives the packages, byte count and remainder of parsing a and b at once |
| Framing.AnyChunking | socket_message_server/ClientSocket.cpp:50-62 | However the bytes are cut into chunks, with compaction in between, packages, byte count and remainder are those of one pass over all of them |
| Framing.PrefixDoesNotThrow | socket_message_server/SocketControl.cpp:382-390 | A prefix of bytes that parse without throwing parses without throwing |
| Framing.RestIsStuck | socket_message_server/SocketControl.cpp:382-389 | After the parser has run no further package can be cut from what is left |
| Framing.ParseArrived | socket_message_server/SocketControl.cpp:378-403 | Any part of a stream of accepted frames parses into the first payloads, in order, and leaves less than a full buffer |
| Framing.ParseWhole | socket_message_server/SocketControl.cpp:382 | A whole stream parses into all its payloads, except that a last payload of length zero is held back by the strict test |
| Framing.OtherLengths | socket_message_server/SocketControl.cpp:382-390 | A negative length makes the parser throw at once, one beyond the bytes at hand makes it wait |
| Socket.ClientSocket.Append | socket_message_server/ClientSocket.cpp:140-148 | The locked half of Write takes the whole frame behind the buffered bytes, or nothing of it, and takes it exactly when it fits |
| Socket.ClientSocket.Transfer | socket_message_server/ClientSocket.cpp:163-175 | The bytes the kernel took leave the front of the buffer and appear on the wire in order; the rest moves to the front |
| Socket.ClientSocket.Send | socket_message_server/ClientSocket.cpp:153-200 | However the kernel splits the bytes, sent bytes and buffer together are unchanged; after a non-blocking success the writing flag is up exactly when bytes are left, and then the kernel's last answer was would-block; the callback is made exactly on a change of the flag |
| Socket.ClientSocket.ReportWriting | socket_message_client/socket_message_sdk/SocketControl.cpp:37-39 | The SDK's write-interest flag always equals the writing flag, hence after every non-blocking success "buffer not empty" |
| Socket.ClientSocket.Write | socket_message_server/ClientSocket.cpp:138-150 | All or nothing of the frame, then Send; a rejected frame changes nothing and reports success |
| Socket.ClientSocket.SendPackage | socket_message_client/socket_message_sdk/SocketControl.cpp:46-80 | A package whose frame does not fit is refused before anything is written; otherwise its whole frame follows the buffered bytes |
| Socket.ClientSocket.Absorb | socket_message_server/ClientSocket.cpp:50-62 | One positive recv: the new bytes are parsed together with the remainder and the uncut rest ends up at the front of the buffer |
| Socket.ClientSocket.Recv | socket_message_server/ClientSocket.cpp:46-95 | The whole receive loop, with any sizes the kernel chooses, has the effect of one parse over the old remainder and all bytes received; every recv asks for the room the remainder leaves; a non-blocking return of 0 means the kernel's last answer was would-block |
| Delivery.SentThenBuffered | socket_message_server/ClientSocket.cpp:138-200 | In every run with any number of writers, bytes sent followed by bytes buffered are the accepted frames, whole and in order |
| Delivery.DeliveredInOrder | socket_message_server/ClientSocket.cpp:46-95 | In every run the packages handed on are an in-order prefix of the accepted payloads, the parser never throws and the read buffer is never full after it ran |
| Delivery.DeliveredCompletely | socket_message_server/SocketControl.cpp:378-403 | When every byte has arrived the packages are all accepted payloads, if and only if the last one is not empty |
| Delivery.EmptyPayloadWaits | socket_message_server/SocketControl.cpp:382 | A single empty payload, fully received, is not handed on |
| Delivery.BytesCounted | socket_message_server/SocketControl.cpp:397-400 | For one connection, bytes and packages counted since the counters were cleared are the bytes received, less the remainder, and the packages handed on, less what was counted before |
| Totals.SharedCounters | socket_message_server/SocketControl.cpp:396-400 | Over any run of any number of connections, the shared counters are the bytes received less the remainders, and the packages handed on, less what was counted before the last clearing |
| Totals.CountedSinceClear | socket_message_server/SocketControl.cpp:131-138 | Between clearings the counters show exactly what came in since |
| Delivery.RunKeepsInv | socket_message_server/ClientSocket.cpp:46-200 | Every step of every run keeps the conservation invariant of the channel |
| Delivery.Connection.Append | socket_message_server/ClientSocket.cpp:140-148 | The real endpoints stay in the state of a run of the channel after an append |
| Delivery.Connection.Flush | socket_message_server/ClientSocket.cpp:153-200 | The real endpoints stay in the state of a run of the channel after a Send by any thread, whatever the kernel takes |
| Delivery.Connection.Pull | socket_message_server/ClientSocket.cpp:46-95 | The real endpoints stay in the state of a run of the channel after a Recv, which does not throw, and none of whose recv calls, as logged by the kernel, asked for zero bytes |
| Delivery.Connection.ClearRecvCount | socket_message_server/SocketControl.cpp:131-138 | Clearing the counters loses no package and is the channel's clearing step |
| Interest.EPoll.Add | socket_message_server/EPoll.cpp:66-84 | Registers the given directions, edge-triggered; refused for a registered descriptor |
| Interest.EPoll.Change | socket_message_server/EPoll.cpp:93-111 | Rewrites the record and arms it again; refused for an unregistered descriptor |
| Interest.EPoll.Remove | socket_message_server/EPoll.cpp:87-90 | Removes the record; refused for an unregistered descriptor |
| Interest.EPoll.Wait | socket_message_server/EPoll.cpp:42-63 | An event has some of the recorded directions and silences an edge-triggered record until it is written again |
| Interest.ClientRegistration.EPollAddClientRead | socket_message_server/SocketControl.cpp:293-309 | Keeps the kernel record in step with the two flags and is never refused |
| Interest.ClientRegistration.EPollAddClientWrite | socket_message_server/SocketControl.cpp:311-327 | Arming write interest keeps record and flags in step and is never refused |
| Interest.ClientRegistration.EPollDelClientRead | socket_message_server/SocketControl.cpp:329-345 | Dropping read interest keeps record and flags in step and is never refused |
| Interest.ClientRegistration.EPollDelClientWrite | socket_message_server/SocketControl.cpp:347-363 | Dropping write interest keeps record and flags in step and is never refused |
| Interest.ClientRegistration.EPollDelClient | socket_message_server/SocketControl.cpp:365-371 | Both flags down and no record; refused only when nothing was registered |
| Interest.ApplyAllInStep | socket_message_server/SocketControl.cpp:293-371 | After any sequence of the operations the record is absent exactly when both flags are down, else has exactly their bits; each flag is up exactly when its last operation since any close armed it |
| Interest.Drive | socket_message_server/SocketControl.cpp:293-371 | Any sequence of the four operations on a real registration: Add is only issued when absent, Change and Remove only when present |
| Readiness.RunKeepsInv | socket_message_server/SocketControl.cpp:188-280 | The registration, reading and writing invariants hold in every interleaving of event thread, tasks, writers and callbacks |
| Readiness.ReadingExclusive | socket_message_server/SocketControl.cpp:209-223 | For an open registered client exactly one of "read interest armed" and "one receive task on its way" holds; two receive tasks never coexist |
| Readiness.NoStrandedOutput | socket_message_server/SocketControl.cpp:224-237 | Buffered bytes mean the writing flag or a writer about to send; the flag means write interest armed, about to be armed, or a send task on its way |
| Readiness.QuietOutputIsArmed | socket_message_server/SocketControl.cpp:270-280 | With no thread at work, unsent bytes have armed, unreported write interest in the kernel |
| Readiness.ClosedIsUnregistered | socket_message_server/SocketControl.cpp:260-261 | In every run a client that has been closed has both flags down and no epoll record, and stays so |
| Readiness.IdleWriterStaysArmed | socket_message_server/SocketControl.cpp:226-236 | A reachable state in which write interest is armed and nothing is buffered |
| Readiness.IdleArmedIff | socket_message_server/SocketControl.cpp:226-236 | With no Send in its callback, write interest is armed with the flag down if and only if the last operation on it was a send task's re-arm that found the flag down |
| Readiness.ArmedMeansPendingIff | socket_message_server/SocketControl.cpp:226-236 | With no thread at work, "armed if and only if data is pending" holds exactly when the last operation on write interest was not such a re-arm |
| Readiness.WithoutRearmExact | socket_message_server/SocketControl.cpp:270-280 | In any run without that re-arm, armed and pending go together in every quiet state |
| SocketControl.ServedClient.Connected | socket_message_server/SocketControl.cpp:188 | The end of the connect callback is the protocol's Register step on the real flags and record |
| SocketControl.ServedClient.Wait | socket_message_server/EPoll.cpp:42-63 | An event for this client is the protocol's report step on the real record |
| SocketControl.ServedClient.EpollRound | socket_message_server/SocketControl.cpp:240-246 | One round of the event thread: nothing, or report, disarming and queueing of the task, which is then there to be run |
| SocketControl.ServedClient.Epoll4EventCallback | socket_message_server/SocketControl.cpp:207-237 | A reported event disarms one direction and queues its task, read before write: the protocol's two steps |
| SocketControl.ServedClient.ReceiveTask | socket_message_server/SocketControl.cpp:212-221 | Bytes come in and are parsed; the client is re-armed if and only if the kernel's last answer was would-block, by the protocol's steps, and closed and unregistered if and only if it was the end of the stream or a failure |
| SocketControl.ServedClient.SendLocked | socket_message_server/ClientSocket.cpp:153-200 | Send with its callback, over the real buffer, is the protocol's send section followed by its callback step; what the kernel answered decides the result |
| SocketControl.ServedClient.SendTask | socket_message_server/SocketControl.cpp:227-236 | Sent bytes and buffer together are unchanged; the client stays open and is re-armed, by the protocol's steps, when the buffer is empty or the kernel would block, and is closed and unregistered after the end of the connection or a failure |
| SocketControl.ServedClient.WriteTask | socket_message_server/SocketControl.cpp:98-113 | A frame is accepted exactly when it fits; then the append, send and callback steps, bytes conserved, or the close and the removal from epoll after the end of the connection or a failure |
| SocketControl.ServedClient.WriteDataCallback | socket_message_server/SocketControl.cpp:270-280 | Arms or disarms write interest by the flag |
| SocketControl.ServedClient.Append | socket_message_server/ClientSocket.cpp:140-148 | The locked append is the protocol's append step exactly when the frame is accepted |
| SocketControl.ServedClient.CloseAndDelete | socket_message_server/SocketControl.cpp:365-371 | The protocol's close step: both flags down and no record left in epoll |
| SocketControl.ServedClient.QuietClientIsArmed | socket_message_server/SocketControl.cpp:207-237 | A real client object with no thread at work has read interest in its kernel record, and write interest whenever its write buffer is not empty |
| SocketControl.ClientFds.Insert | socket_message_server/SocketControl.cpp:178-181 | The insert of a new connection meets no old entry and takes effect |
| SocketControl.ClientFds.CountUp | socket_message_server/SocketControl.cpp:182 | One more client counted, as the table's step |
| SocketControl.ClientFds.NoticeOpen | socket_message_server/SocketControl.cpp:183-186 | One open notice, as the table's step |
| SocketControl.ClientFds.CloseAndDelete | socket_message_server/SocketControl.cpp:249-268 | Only the closer whose erase takes the entry lowers the counter and gives the close notice; all others change nothing |
| ClientTable.RunKeepsInv | socket_message_server/SocketControl.cpp:170-268 | Table, notices and counter stay consistent in every interleaving of connects and competing closes |
| ClientTable.CounterMatchesTable | socket_message_server/SocketControl.cpp:182-268 | Counter plus inserted-but-uncounted minus erased-but-undecremented clients equals the size of the table |
| ClientTable.NoticesOnce | socket_message_server/SocketControl.cpp:183-266 | Each connection gives exactly one open notice once its callback is through and at most one close notice, never while it is in the table |
| ClientTable.InsertSucceeds | socket_message_server/SocketControl.cpp:180 | In every reachable state a descriptor the kernel hands out has no entry |
| Bytes.DecodeEncodeInt32 | socket_message_server/SocketHead.h:15-22 | A 32-bit integer copied to memory and back is unchanged, negative ones included |
| Bytes.EncodeDecodeInt32 | socket_message_server/SocketHead.h:15-22 | Any four bytes are the encoding of what they decode to |
| Bytes.LittleEndian | socket_message_server/SocketHead.h:15-22 | Integers lie least significant byte first, negative ones in two's complement |
| Records.UserLayout | socket_message_server/DataType.h:88-100 | Which bytes of a user, login request or login reply hold which field |
| Records.UserListLayout | socket_message_server/DataType.h:114-128 | Head, count and users at their offsets |
| Records.UsersLayout | socket_message_server/DataType.h:122-126 | User i lies at 44 times i |
| Records.GroupLayout | socket_message_server/DataType.h:147-172 | Id, name, administrator and nested list of a group at their offsets |
| Records.GroupListLayout | socket_message_server/DataType.h:193-215 | Head, count and groups, one behind the other by their sizes |
| Records.FixedLayout | socket_message_server/DataType.h:247-256 | Which bytes of a message hold which fixed field |
| Records.MsgLayout | socket_message_server/DataType.h:258-281 | Text and extension, each with its size before and a NUL behind, at their offsets |
| Records.MsgListLayout | socket_message_server/DataType.h:349-371 | Head, count and messages, one behind the other by their sizes |
| Records.GetMsgListLayout | socket_message_server/DataType.h:234-245 | Which bytes of a query hold which field |
| Bytes.ReadCString | socket_message_server/DataType.h:316 | The append from a char pointer reads up to the first NUL, or runs off the memory when there is none |
| DataTypes.S2CUserList.Serialize | socket_message_server/DataType.h:114-128 | The moving offset fills the buffer exactly with the record's bytes, size field first |
| DataTypes.S2CUserList.UnSerialize | socket_message_server/DataType.h:130-142 | Reads from any offset what the decoding function defines, pushing behind what the vector held |
| DataTypes.S2CGroup.Serialize | socket_message_server/DataType.h:161-172 | The buffer is filled exactly with the group's fields and its nested user list, both sizes filled in |
| DataTypes.S2CGroup.UnSerialize | socket_message_server/DataType.h:174-179 | Reads the fixed part and the nested list as the decoding function defines, pushing behind the users it held |
| DataTypes.S2CGroupList.Serialize | socket_message_server/DataType.h:193-215 | The buffer is filled exactly with the count and the groups of differing sizes, each one's size filled in on the way |
| DataTypes.S2CGroupList.UnSerialize | socket_message_server/DataType.h:217-229 | Reads the groups the decoding function defines, the cursor advancing by each group's decoded size |
| DataTypes.DataMsg.Serialize | socket_message_server/DataType.h:258-281 | The buffer is filled exactly with the fixed part and the two counted, terminated strings |
| DataTypes.DataMsg.UnSerialize | socket_message_server/DataType.h:308-323 | The decoder as written, including the extra step of the cursor, and what happens when a read leaves the memory |
| DataTypes.DataMsgList.Serialize | socket_message_server/DataType.h:349-371 | The buffer is filled exactly with the count and the messages, each one's size filled in on the way |
| DataTypes.DataMsgList.UnSerialize | socket_message_server/DataType.h:373-385 | Reads the messages the decoding function defines, the cursor advancing by each message's decoded size |
| RoundTrip.GroupListAt | socket_message_server/DataType.h:193-229 | A serialised group list, wherever it lies in memory, reads back with every vector cut to what its count looks like to the reader; the cursor meets the start of every group |
| RoundTrip.GroupListRoundTrip | socket_message_server/DataType.h:217-229 | The group list comes back exactly if and only if all counts are at most 127 (char reader), and always with an int reader |
| RoundTrip.LargeGroupLosesUsers | socket_message_server/DataType.h:133 | A group of 128 users comes back with none |
| RoundTrip.UserListRoundTrip | socket_message_server/DataType.h:114-142 | The user list comes back exactly if and only if it has at most 127 users, or an int reader |
| RoundTrip.OnlySizesFilled | socket_message_server/DataType.h:193-215 | All that serialising changes in a group list is the size of the list, of each group and of each nested list, each spelled out |
| RoundTrip.OnlyUserListSizeFilled | socket_message_server/DataType.h:114-119 | All that serialising changes in a user list is its size, spelled out |
| RoundTrip.OnlyMsgSizeFilled | socket_message_server/DataType.h:258-263 | All that serialising changes in a message is its size, spelled out |
| RoundTrip.MsgAt | socket_message_server/DataType.h:308-323 | Whatever lies around it, every fixed field and the text up to its first NUL come back with either reader |
| RoundTrip.MsgRoundTrip | socket_message_server/DataType.h:258-323 | Round trip of a message: fixed fields always; the text exactly when it holds no NUL; with the intended cursor the extension exactly when it holds no NUL |
| RoundTrip.CursorNeverAligned | socket_message_server/DataType.h:314-320 | The cursor as written never stands on the extension's size: one byte late for texts up to 126 bytes, at least two early for longer ones |
| RoundTrip.ExtendAsWritten | socket_message_server/DataType.h:318-322 | For a short text the extension comes back without its first byte, an empty one as whatever string lies behind the record |
| RoundTrip.ExtendFound | socket_message_server/DataType.h:308-323 | For every record, wherever it lies and however long its text, the exact result of the decoder as written, extension included |
| RoundTrip.ExtendSurvivesIff | socket_message_server/DataType.h:318-322 | For any text, the extension survives if and only if the text is short, the extension empty and the byte behind the record NUL, or the text is long and the extension repeats the bytes before it that the cursor falls on |
| RoundTrip.ExtendLostIff | socket_message_server/DataType.h:314-322 | The exact two cases in which the search for the extension leaves the memory |
| RoundTrip.LongTextLeaksIntoExtend | socket_message_server/DataType.h:314-322 | For every long text, what is taken for the extension: the rest of the text, a piece of what lies before it, of what lies before the record, or nothing, by the size as it is read |
| RoundTrip.MsgListRoundTrip | socket_message_server/DataType.h:349-385 | A message list reads back in alignment, for as many records as its count shows, each exactly as one record alone, extensions included |
| RoundTrip.EmptyExtendReadsNext | socket_message_server/DataType.h:318-322 | In a list, a short text without an extension gets the first bytes of the next record, up to a NUL, for one |
| RoundTrip.GetMsgListAt | socket_message_server/DataType.h:234-245 | The fixed-size query comes back unchanged |
| Dispatch.ExactFill | socket_message_server/DataType.h:116-127 | What any serialiser writes ends exactly at the size it announces, and that size is the first field |
| Dispatch.GateOnBytes | socket_message_server/DataHandler.cpp:36-54 | On the bytes: a package gets to the handler of type t if and only if it holds a head, starts with its own size, goes on with t, and t is registered |
| Dispatch.PassesGateIff | socket_message_server/DataHandler.cpp:34-55 | A serialised message passes the gate if and only if its type is registered |
| Dispatch.EveryMessageReachesItsHandler | socket_message_client/socket_message_sdk/SocketMessageSdkInterface.cpp:129-153 | Serialised, framed, received in any chunks, messages reach the handlers of their types, all of them and in order |
| Dispatch.ConnectionReachesHandlers | socket_message_server/DataHandler.cpp:34-55 | Messages reach the handlers of their types over any run of a connection with concurrent writers, once every byte has arrived |
| Relay.OnePackagePerRow | socket_message_server/DataHandler.cpp:239-252 | One package for every looked-up row that is online and not the sender, in row order, and no other |
| Relay.PackagesPerConnection | socket_message_server/DataHandler.cpp:239-252 | A user's connection gets as many packages as rows name the user; the sender's gets none |
| Relay.RelayPreservesMeaning | socket_message_server/DataHandler.cpp:209-253 | A client's message passes the gate and, where the decoder stays in its memory, goes out in identical packages, spelled out field by field: the sender's fields, the database's number, the server's time and type, the text up to a NUL and the extension the server read; they pass every client's gate and decode to the same but for the extension, whose result is given too. Where the decoder leaves its memory the model gives no result |
| Relay.OthersIgnored | socket_message_server/DataHandler.cpp:36-54 | A package that does not start with its own size, or is no login, message or query, has no effect |
| Relay.RelayLostIff | socket_message_server/DataType.h:314-322 | The exact condition, known before sending, under which the server's decoder leaves the package's memory: a text of at most 126 bytes with an empty extension and no NUL behind the package, or a text size that reads as less than -34 |
| Relay.GoesWhereAddressed | socket_message_server/DataHandler.cpp:221-252 | Where the decoder stays in its memory, a direct message goes to its receiver's connection alone; a group message to its members' connections, each as often as listed; the sender's own connection gets neither |
| Relay.ServerReads | socket_message_server/DataType.h:308-323 | What the server holds after decoding a client's bytes |
| Relay.ReceiverReads | socket_message_server/DataType.h:258-323 | What every receiver decodes from the bytes of the relayed record: its fixed fields, its text, and the extension as the decoder finds it |
| Relay.LoginAnswered | socket_message_server/DataHandler.cpp:153-190 | All answers go to the login's own connection: one after a failure, three after a success, the user going online unless already there; the client reads exactly the database's id and name, its users and the user's own groups, cut to what the char counts show |
| Relay.QueryAnswered | socket_message_server/DataHandler.cpp:193-206 | One answer on the query's own connection, from which the client reads the stored messages one by one, extensions as the decoder finds them |
| DataHandler.DataHandler.ThreadWork | socket_message_server/DataHandler.cpp:34-55 | The handler object does to its online map and its send callback exactly what the package's meaning says and returns the connection it took on every path; without one to take it waits with nothing done, which never happens with a connection for every worker |
| DataHandler.DataHandler.DataHandlerC2SLogin | socket_message_server/DataHandler.cpp:153-190 | The object does what a login's meaning says, looking up all users and the user's groups, with the early return, and gives its connection back on both paths, or waits with nothing done |
| DataHandler.DataHandler.DataHandlerC2SGetDataMsgList | socket_message_server/DataHandler.cpp:193-206 | The object sends the one answer to a query and gives its connection back, or waits with nothing done |
| DataHandler.DataHandler.DataHandlerC2SDataMsg | socket_message_server/DataHandler.cpp:209-253 | The object does what a message's meaning says: decoded, stamped, saved, its rows looked up, the connection returned, retyped and relayed; or waits with nothing done |
| DataHandler.DataHandler.SendToAll | socket_message_server/DataHandler.cpp:236-252 | The loop sends the once-serialised bytes to exactly the served rows in order |
| DataHandler.DataHandler.ClientSocketState | socket_message_server/DataHandler.cpp:64-81 | A close erases the entry of the least user of the connection, so with one user per connection none is left |
| Sdk.SocketMessageSdkInterface.SendLogin | socket_message_client/socket_message_sdk/SocketMessageSdkInterface.cpp:55-71 | A login package in the caller's id and with the password field, exactly when connected |
| Sdk.PasswordArrivesIff | socket_message_client/socket_message_sdk/SocketMessageSdkInterface.cpp:55-71 | The login package passes the server's gate as a login with the caller's id; the server reads the typed password if and only if it has at most 31 bytes and no NUL; a longer one arrives as its first 32 bytes |
| Sdk.SocketMessageSdkInterface.SendDataMsg | socket_message_client/socket_message_sdk/SocketMessageSdkInterface.cpp:73-89 | Nothing is sent before login; else the bytes of the outgoing message |
| Sdk.OutgoingReads | socket_message_client/socket_message_sdk/SocketMessageSdkInterface.cpp:79-88 | The server reads from it the caller's own id as sender, and the receiver, type, group flag, time, text and extension given |
| Sdk.SocketMessageSdkInterface.SendGetDataMsgList | socket_message_client/socket_message_sdk/SocketMessageSdkInterface.cpp:91-102 | Nothing is sent before login; else the bytes of a query for the own user |
| Sdk.QueryArrives | socket_message_client/socket_message_sdk/SocketMessageSdkInterface.cpp:91-102 | The database is asked about the caller's own messages after the given one, and what it stores is what the client reads |
| Sdk.LoginShown | socket_message_client/socket_message_sdk/SocketMessageSdkInterface.cpp:182-195 | A login reply is shown with the database's id and name exactly when the name is terminated, and makes the client that user unless the id is -1 |
| Sdk.OthersNotShown | socket_message_client/socket_message_sdk/SocketMessageSdkInterface.cpp:129-153 | A package with a wrong size, with no type a server sends, or without a callback is shown as nothing and leaves the client who it was |
| Sdk.SocketMessageSdkInterface.SocketReadReadPackageCallback | socket_message_client/socket_message_sdk/SocketMessageSdkInterface.cpp:129-153 | The gate, and the notice of the type's handler; only a login notice can change the own user |
| Sdk.ConvertUsers | socket_message_client/socket_message_sdk/SocketMessageSdkInterface.cpp:204-210 | Every user in order, names up to their NUL; possible exactly when every name has one |
| Sdk.ConvertGroups | socket_message_client/socket_message_sdk/SocketMessageSdkInterface.cpp:222-237 | Every group and its users in order; possible exactly when every name among them has its NUL |
| Sdk.ConvertMsgs | socket_message_client/socket_message_sdk/SocketMessageSdkInterface.cpp:270-282 | Every message in order, all fields |
| Sdk.ChatShown | socket_message_client/socket_message_sdk/SocketMessageSdkInterface.cpp:242-261 | What the receiving application is shown of a message, through encoding, server and decoding: the sender's fields, the server's number and time, the text up to a NUL and the extension the decoder finds; nothing exactly when that decoder leaves its memory |
| Sdk.ChatArrives | socket_message_client/socket_message_sdk/SocketMessageSdkInterface.cpp:242-261 | The exact condition, in the sender's terms, under which a message that went out is not shown: for a text that reads as at most 126 bytes, that the server found an empty extension and no NUL lies behind the receiver's package; for a longer one, that its size reads below -34 |
| Sdk.CallerIsShown | socket_message_client/socket_message_sdk/SocketMessageSdkInterface.cpp:73-89 | From the caller's arguments to the other application: the notice comes from the caller's own id with the caller's receiver, type, group flag and text, and there is none exactly under the stated condition; never back on the caller's own connection |
| Sdk.CallerReaches | socket_message_client/socket_message_sdk/SocketMessageSdkInterface.cpp:73-89 | A caller's direct message goes to the receiver's connection alone, a group message to the members' connections, neither back to the caller |
| EndToEnd.SomeRunDelivers | socket_message_server/ClientSocket.cpp:138-200 | Any payloads small enough can be accepted, sent and received through a connection in order |
| EndToEnd.ChatsArriveInOrder | socket_message_client/socket_message_sdk/SocketMessageSdkInterface.cpp:73-89 | Messages sent by one SDK over its connection, handled by the server and sent over another connection, in whatever pieces, reach the other SDK's callback one by one in the order handled, each as it is shown alone |
| Sdk.UsersShown | socket_message_client/socket_message_sdk/SocketMessageSdkInterface.cpp:197-213 | The application is shown the users the server looked up, cut to what the char count lets through, each with its id and name, exactly when their names are terminated |
| Sdk.GroupsShown | socket_message_client/socket_message_sdk/SocketMessageSdkInterface.cpp:215-240 | The application is shown the groups the database has for the user, list and members cut to what the char counts let through, each with id, name, administrator and members, exactly when the names among them are terminated |
| Sdk.HistoryShown | socket_message_client/socket_message_sdk/SocketMessageSdkInterface.cpp:263-285 | The application is shown the stored messages, as many as the char count lets through, field by field, with the extension as it is read |
| Blocks.RunKeepsInv | socket_message_server/MemoryMgr.cpp:41-78 | Every allocation and every matching free, in any order over all pools, keeps the invariant of headers, lists and extents |
| Blocks.LiveBlocksApart | socket_message_server/MemoryPool.cpp:37-61 | After any run no live payload overlaps any header or payload of another block, and each has at least the requested capacity |
| Blocks.LiveBlockInSlab | socket_message_server/MemoryPool.cpp:15-24 | A live pool block lies inside its slab |
| Blocks.FreeAndOutstanding | socket_message_server/MemoryPool.cpp:37-74 | The list from the head is finite and free of repetitions; its blocks and the outstanding ones are exactly the initial blocks; single blocks never enter it |
| Blocks.AllocHandsOut | socket_message_server/MemoryMgr.cpp:41-71 | An allocation hands out a block not in use, owned by the pool of the smallest sufficient class, with the class's capacity, or with the size asked for above 2048 |
| Blocks.ClassesDouble | socket_message_server/MemoryMgr.cpp:8-16 | The classes are 8 bytes and its doubles up to 2048 |
| Blocks.OwnerRemembered | socket_message_server/MemoryMgr.cpp:73-78 | Until freed, a block keeps the pool that issued it |
| Blocks.FreedBlockIsReused | socket_message_server/MemoryPool.cpp:63-74 | A freed pool block is the next one handed out, and that undoes the free |
| Blocks.StartInv | socket_message_server/MemoryPool.cpp:6-27 | The freshly built slabs satisfy the invariant |
| Memory.MemoryPool.constructor | socket_message_server/MemoryPool.cpp:6-27 | One region, a header in front of every block, threaded in address order and ended by null |
| Memory.MemoryPool.WriteHeaders | socket_message_server/MemoryPool.cpp:18-26 | The loop writes exactly the slab's headers and no other |
| Memory.MemoryPool.AllocMemory | socket_message_server/MemoryPool.cpp:37-49 | Pops the list head, or takes one block from malloc when the list is empty |
| Memory.MemoryPool.AllocSized | socket_message_server/MemoryPool.cpp:51-61 | A single block with its own header in an unused region |
| Memory.MemoryPool.FreeMemory | socket_message_server/MemoryPool.cpp:63-74 | Pushes a pool block, gives a single block back to malloc |
| Memory.MemoryMgr.constructor | socket_message_server/MemoryMgr.cpp:7-19 | Builds the ten pools into a state from which every run keeps the invariant |
| Memory.MemoryMgr.ChooseClass | socket_message_server/MemoryMgr.cpp:43-69 | The comparison chain picks the smallest sufficient class |
| Memory.MemoryMgr.AllocMemory | socket_message_server/MemoryMgr.cpp:41-71 | The allocation step of the model on the real pools and heap |
| Memory.MemoryMgr.FreeMemory | socket_message_server/MemoryMgr.cpp:73-78 | The free step, routed by the pool pointer in the header |
| ThreadPool.RunKeepsInv | socket_message_server/ThreadPool.cpp:18-61 | The pool's invariant holds in every interleaving of workers, callers and shutdown |
| ThreadPool.TasksConserved | socket_message_server/ThreadPool.cpp:46-61 | Tasks dequeued followed by the queue are the tasks added, in order; every dequeued task is completed or in exactly one worker's hands; the available counter is the workers less the busy ones |
| ThreadPool.RunAtMostOnce | socket_message_server/ThreadPool.cpp:46-50 | A task added once is completed at most once and never in two hands |
| ThreadPool.ShutdownRunsEverything | socket_message_server/ThreadPool.cpp:18-45 | When all workers have exited every task ever added has completed |
| ThreadPool.ThreadPool.AddTask | socket_message_server/ThreadPool.cpp:56-61 | The push on the real queue, by code outside the pool or by a running task, is the model's step |
| ThreadPool.ThreadPool.Destroy | socket_message_server/ThreadPool.cpp:18-21 | The model's shutdown step |
| ThreadPool.ThreadPool.TakeSection | socket_message_server/ThreadPool.cpp:36-48 | Takes the oldest task if there is one, exits only on an empty queue of a destroyed pool, else waits |
| ThreadPool.ThreadPool.RunTask | socket_message_server/ThreadPool.cpp:50 | A task runs once, may add others to the end of the queue, and is completed when it returns |
| ThreadPool.ThreadPool.Round | socket_message_server/ThreadPool.cpp:33-52 | One round of the loop takes and completes the oldest task with the counter back where it was, or leaves, or waits |
| ThreadPool.ThreadPool.Work | socket_message_server/ThreadPool.cpp:30-53 | A worker left alone completes every queued task, then leaves a pool being destroyed and waits otherwise |
| ThreadPool.ThreadPool.NothingLeft | socket_message_server/ThreadPool.cpp:18-27 | A pool whose workers have all left has an empty queue and has completed every task added |
| ThreadPool.ThreadPool.LowerAvailable | socket_message_server/ThreadPool.cpp:49 | One atomic decrement |
| ThreadPool.ThreadPool.RaiseAvailable | socket_message_server/ThreadPool.cpp:51 | One atomic increment |
| MySqlPool.ConnectionsConserved | socket_message_server/MySqlPool.cpp:38-59 | Over any run every connection is idle in one place or held by exactly one worker, and their number never changes |
| MySqlPool.LastReturnedIsNext | socket_message_server/MySqlPool.cpp:47-57 | The connection given back last is the next one taken, and the pool is then as it was |
| MySqlPool.NeverWaitsIff | socket_message_server/MySqlPool.cpp:38-52 | A worker that asks always finds a connection if and only if there are at least as many connections as workers |
| MySqlPool.ConfiguredNeverWaits | socket_message_server/Config.h:8-11 | With the configured sizes no data worker ever waits |
| MySqlPool.MySqlPool.constructor | socket_message_server/MySqlPool.cpp:4-15 | As many connections as asked for, at least one |
| MySqlPool.MySqlPool.Pop | socket_message_server/MySqlPool.cpp:38-52 | Takes the last connection, as the model's step for the calling worker; waits exactly while there is none |
| MySqlPool.MySqlPool.Push | socket_message_server/MySqlPool.cpp:54-59 | Appends the returned connection, as the model's step |
| MySqlPool.MySqlPool.NeverWaits | socket_message_server/MySqlPool.cpp:38-52 | A real pool with a connection for every worker has one whenever a worker asks |
| MySqlPool.MySqlPool.Conserved | socket_message_server/MySqlPool.cpp:38-59 | A real pool never loses a connection nor hands one out twice |

## Left out

- DataHandler.DataHandler.ThreadWork: a package whose decoder leaves the memory it was given has no result in the model; the program then reads, and relays, whatever lies there.
- Relay.RelayPreservesMeaning: gives no result in that case, and neither does Relay.GoesWhereAddressed.
- DataHandler.DataHandler.DataHandlerC2SDataMsg: a relayed message whose size does not fit an int is excluded; `DataHandler.SmallMemoryFits` shows that with less than a gigabyte of memory it always fits.
- DataTypes.DataMsgList.UnSerialize: an extension whose search leaves the memory stays empty here, and the other messages are read as usual.
- SocketControl.ServedClient.SendLocked: non-blocking sockets only, the mode the server sets; in blocking mode `Send` leaves bytes behind unreported, which `Socket.ClientSocket.Send` states.
- ThreadPool.ThreadPool.AddTask: not called from outside once the pool is being destroyed; running tasks may still add others.
- Memory.MemoryMgr.AllocMemory: sizes so large that adding the header overflows an int are excluded.
- Memory.MemoryMgr.constructor: the destruction of the pools is not modelled, and each allocation or free is one step, as under the pools' mutexes.
- SocketControl.ServedClient.SendTask: each method runs the sections of one task in a row; other threads between them are covered by the protocol's runs, where the sections are separate steps.
- Object lifetime: a close is one atomic removal, and steps are those of clients that are still there.
- Lengths that neither peer's `SendPackage` produces: a negative length only makes the parser throw, an oversized one never completes; integer overflow in the parser's sums is not modelled.
- Real sockets, `epoll_wait`, `select`, `accept`, `connect` and `fcntl`: their results are free choices limited only by the length asked for. Events that report neither reading nor writing are not modelled, nor is the listening socket.
- The queue from `SendPackage` to the locked append: delivery order is that of the appends, which the server's workers may reorder. The server's `SendPackage` has no return value on its main path (socket_message_server/SocketControl.cpp:79-114).
- Delivery.BytesCounted: is about one connection; the shared counters are in `Totals.SharedCounters`. Send counters are not modelled, being raised even for rejected writes.
- MySQL: login, lists, lookups and saving are arbitrary functions given to the handlers; SQL text and result conversion are not part of this model.
- Flags decode to true for any non-zero byte and are encoded as 1; the program copies the byte.
- EndToEnd.ChatsArriveInOrder: the order is that in which the server handles the messages; its workers may take messages of one client in another order than they arrived. Handlers run one at a time on the handler object; the pools' interleavings are proved on the pools themselves.
- The online map's behaviour for a user on several connections is stated only where the code's first-come rule decides it.
- Wakeups of condition variables and fairness: safety only; loops are proved to terminate.
- Configured sizes given as 0 or negative to the memory pools; a host that is not little-endian or whose `char` is unsigned.
- `Serialize2`, the select loop and its timeouts, the logger, console programs, charset conversion, the monitor, Android and JNI code, and user interfaces: input, output or duplicates that would add only easy members.
