# diginext: a verified model of the message channel and the key-value store

diginext is a small key-value store. Clients send JSON requests over a TCP connection; each message is
Base64-encoded, ended by a newline, queued, written asynchronously, and put together again on the other side.
This project models that stack and proves what it is for: whatever the threads, the writes and the network
chunking do, each side sees what the other sent, in order, and the interleaved server behaves like one
sequential map.

| module | models |
|---|---|
| `Base64` | reference Base64 codec after section 4 of RFC 4648, round trips, canonical texts |
| `Base64Codec` | the two tables and the encode and decode loops, in their bit operations, filling a buffer in place |
| `Framing` | a byte-at-a-time reference receiver, `decode_message`, chunks, frames |
| `SendQueue` | `send`, `async_write`, `handle_write` as steps of a concurrent protocol |
| `Connection` | the class `tcp_connection`, its methods proved against the functions of the two modules above |
| `Channel` | one direction of a connection from end to end: queue, socket, network, receiver |
| `Storage` | `handle_read_message` on one message, its history, the class `StorageServer` |
| `StorageConcurrent` | handlers interleaved at their locked sections, linearizability |
| `Replies` | the JSON text of a reply |
| `JsonReader`, `Utf8` | what a client makes of the bytes it receives: a reader after RFC 8259, UTF-8 after RFC 3629 |
| `KeyValueSystem`, `SystemProgress` | any number of clients, channels both ways, the interleaved server; refinement and delivery |
| `Registry`, `RegistryRuns` | the class `tcp_server` as connection registry; the events of whole runs |

Main results: `KeyValueSystem.SystemRefinement`, `KeyValueSystem.RunRefinement`, `KeyValueSystem.RealTime`,
`SystemProgress.EverySchedulerFinishes`, `Channel.ChannelSafety`, `Channel.ChannelDelivery`,
`StorageConcurrent.Linearizable`, `Storage.MeaningOfFields`, `Storage.RunIsLastWrites`, `Replies.ReadsReply`,
`SendQueue.QueueSafety`, `SendQueue.QueueDrains`, `Framing.ChunkingInvariance`, `Framing.FramingInverse`,
`Base64.RoundTrip`, `Base64.CanonicalConverse`, `Registry.TcpServer.DisconnectAll`, `RegistryRuns.EveryStory`,
`RegistryRuns.RegistryDiscipline`.

Where the code does not do what it is meant to do, the model follows the code:

- The bound `in_len - 2` of the encoding loop wraps around for lengths 0 and 1. `EncodeRaw` then reads outside
  its buffer and is `Undefined`; the string overload guards length 0 only. `CodecRoundTrip` shows that the round
  trip holds exactly for the lengths other than 1. `Encode` in module `Base64` is the encoding the loop is meant
  to compute, and is defined for every length.
- The decoding table is indexed with a signed `char`, so a byte from 128 on is read outside the table. The methods
  that decode are `Undefined` exactly when they look such a byte up; a text of bad length throws before that.
  `Channel.ChannelSafety` shows that a receiver is never given such bytes by a sender of this code. The reference
  functions read the table for all 256 bytes, and the lemmas about them hold for all byte strings.
- The constructor of a connection leaves `sendStart` unset. `StartMatters` shows that queued messages can never get
  stuck exactly if the flag is false at the first send; `start()` makes it false.
- A missing `value` field is reported under the name of the `key` field, and after a missing-field error the
  handler goes on, so that one more error follows (`ReplyCount`).
- A connection whose accept failed is registered all the same (`HandleAccept`).

Parameters of the model: the value a message parses to, of which nothing is assumed. Steps of the environment are
nondeterministic events: which thread runs, how many bytes the socket takes or the network delivers, whether a write
fails, which signal a connection raises. Connection identifiers are fresh.

## Model

| member | source | states |
|---|---|---|
| Base64.RoundTrip | core/src/Base64/Base64.cpp:18-102 | decoding an encoding gives the bytes back, for every byte string of every length, bytes from 128 on included |
| Base64.EncodeShape | core/src/Base64/Base64.cpp:19-47 | an encoding has 4 * ((n + 2) / 3) characters; `=` is exactly the last (3 - n % 3) % 3 of them and all others are alphabet characters |
| Base64.EncodeCanonical | core/src/Base64/Base64.cpp:24-45 | every encoding is canonical in the sense of section 3.5 of RFC 4648 |
| Base64.CanonicalConverse | core/src/Base64/Base64.cpp:24-102 | encoding a decoded text gives it back exactly when it is canonical, and the canonical texts are exactly the encodings |
| Base64Codec.EncodingTable | core/src/Base64/Base64.cpp:7-16 | the literal encoding table is Table 1 of RFC 4648 |
| Base64Codec.DecodingTable | core/src/Base64/Base64.cpp:52-69 | the literal decoding table has 256 entries, inverts the alphabet, and holds 64 for all other bytes |
| Base64Codec.OuterIndices | core/src/Base64/Base64.cpp:26-29 | for bytes of any sign the first and last table index are the first and last sextet of the 24-bit group |
| Base64Codec.InnerIndices | core/src/Base64/Base64.cpp:27-28 | for bytes of any sign the two middle indices are the middle sextets of the group |
| Base64Codec.WriteGroup | core/src/Base64/Base64.cpp:26-29 | one turn of the loop appends the reference encoding of three bytes and keeps what was written |
| Base64Codec.WriteTail | core/src/Base64/Base64.cpp:33-44 | the last one or two bytes and their padding are the reference encoding of the tail |
| Base64Codec.EncodeRaw | core/src/Base64/Base64.cpp:18-47 | the loop fills the buffer exactly to its end with the reference encoding; with fewer than two bytes the wrapped bound makes it leave the buffer |
| Base64Codec.EncodeString | core/src/Base64/Base64.cpp:120-124 | the string overload encodes every string but those of length one, the empty one to the empty text |
| Base64Codec.ReadQuad | core/src/Base64/Base64.cpp:89-94 | the next four positions are read once each, in order, until a byte from 128 on is met, and the low three bytes of the sum are those of the reference decoder |
| Base64Codec.SumIsExact | core/src/Base64/Base64.cpp:94 | for any four characters, valid or not, the 32-bit sum never wraps around, even when all count 64 |
| Base64Codec.QuadBytesOfSum | core/src/Base64/Base64.cpp:94-101 | for any four characters, valid or not, the bytes written are the big-endian bytes of the sum modulo 2^24 |
| Base64Codec.DecodeSnoc | core/src/Base64/Base64.cpp:87-102 | the last quad adds three bytes less its padding, and every quad before it three bytes |
| Base64Codec.WriteBytes | core/src/Base64/Base64.cpp:96-101 | up to three bytes are written, in order, and never past the output |
| Base64Codec.DecodeLoop | core/src/Base64/Base64.cpp:87-102 | unless a byte from 128 on is met, every position is read exactly once, from the first to the last, and the output is filled exactly to its end with the reference decoding |
| Base64Codec.DecodeRaw | core/src/Base64/Base64.cpp:71-108 | a length that is no multiple of 4 throws whatever the bytes, the empty text is read before its start, a byte from 128 on is undefined, and every other text is decoded, valid or not |
| Base64Codec.DecodeString | core/src/Base64/Base64.cpp:126-138 | the string overload throws exactly for lengths that are no multiple of 4, is undefined exactly when the length is right and some byte is 128 or more, and else returns the reference decoding |
| Base64Codec.CodecRoundTrip | core/src/Base64/Base64.cpp:120-138 | as written, encoding and then decoding gives a string back if and only if its length is not one |
| Base64Codec.CodecConverse | core/src/Base64/Base64.cpp:120-138 | as written, decoding and then encoding gives a text back if and only if it is canonical and is not a single quad with two padding characters |
| Framing.ReceiveAppend | core/src/TCP/TCPConnection.cpp:147-160 | receiving two pieces one after the other, carrying the incomplete part, is receiving their concatenation |
| Framing.ReceivedShape | core/src/TCP/TCPConnection.cpp:100-106 | the carried part holds no delimiter, and no empty message is ever raised |
| Framing.LinesJoin | core/src/TCP/TCPConnection.cpp:89-90 | the tokens of a text, joined by delimiters, give the text back |
| Framing.LinesApart | core/src/TCP/TCPConnection.cpp:89-90 | no token of a text holds a delimiter |
| Framing.ReceiveLines | core/src/TCP/TCPConnection.cpp:95-115 | the messages are those of the complete lines, each decoded on its own, and the last line is the incomplete part |
| Framing.SplitConservation | core/src/TCP/TCPConnection.cpp:77-87 | complete and incomplete part make up the input, the complete part is empty or ends in a delimiter, and the incomplete part holds none |
| Framing.LineIsolation | core/src/TCP/TCPConnection.cpp:100-112 | a line that is empty or of bad length can be taken out without changing any message or the incomplete part |
| Framing.FindLastOf | core/src/TCP/TCPConnection.cpp:81 | finds the last delimiter, or npos, whose successor is the start of the text |
| Framing.CutAtLast | core/src/TCP/TCPConnection.cpp:81-83 | the two parts make up the text, the first is empty or ends in a delimiter, and the second holds none |
| Framing.Split | core/src/TCP/TCPConnection.cpp:89-90 | splitting at every delimiter yields the lines of the text, empty ones included |
| Framing.DecodeTokens | core/src/TCP/TCPConnection.cpp:94-115 | the loop collects the decoded lines and skips the empty ones and those of bad length; it is undefined exactly when a line of right length has a byte from 128 on |
| Framing.DecodeMessage | core/src/TCP/TCPConnection.cpp:61-119 | decode_message returns the messages of the byte-at-a-time receiver, sets the unreceived part exactly when the text does not end in a delimiter, and is undefined exactly when a complete line of right length has a byte from 128 on |
| Framing.ChunkingInvariance | core/src/TCP/TCPConnection.cpp:121-171 | for every stream and every way of cutting it, the messages and the final partMessage are those of the whole stream at once |
| Framing.EncodedText | core/src/TCP/TCPConnection.cpp:241 | no encoded message holds a delimiter, whatever its bytes, and all its bytes are ASCII |
| Framing.AsciiDecodable | core/src/Base64/Base64.cpp:89-92 | a text of bytes below 128 is never undefined to decode_message |
| Framing.FramingInverse | core/src/TCP/TCPConnection.cpp:61-119 | from the frames of any messages come the non-empty messages in order, with nothing left over |
| Framing.FramesPrefix | core/src/TCP/TCPConnection.cpp:61-119 | from any prefix of the frames comes a prefix of the non-empty messages |
| Connection.TcpConnection.Start | core/src/TCP/TCPConnection.cpp:253-261 | the flag is cleared, the carried part emptied, the queue kept, and the reading begun |
| Connection.TcpConnection.PushMessage | core/src/TCP/TCPConnection.cpp:237-248 | the frame of the message goes to the end of the queue; a message of one byte is undefined |
| Connection.TcpConnection.AsyncWrite | core/src/TCP/TCPConnection.cpp:195-231 | queue, flag and issued write are those of the queue protocol |
| Connection.TcpConnection.Send | core/src/TCP/TCPConnection.cpp:233-251 | push and start together are the two steps of the queue protocol |
| Connection.TcpConnection.HandleWrite | core/src/TCP/TCPConnection.cpp:181-193 | an error is signalled, and the head is popped with and without one |
| Connection.TcpConnection.HandleRead | core/src/TCP/TCPConnection.cpp:121-171 | a chunk raises one signal for each message of carried part and chunk, in order and with its bytes, carries the new part and starts the next read, and is undefined exactly when decode_message is; an error keeps the part, signals a disconnection or a read error, and ends the reading |
| Connection.AsyncWriteOnNodes | core/src/TCP/TCPConnection.cpp:195-231 | async_write on the fields of the class is async_write on the nodes of the state machine |
| SendQueue.InvStep | core/src/TCP/TCPConnection.cpp:181-251 | every step of every thread keeps the queue invariant |
| SendQueue.QueueSafety | core/src/TCP/TCPConnection.cpp:181-251 | after every run: at most one write is outstanding, exactly while sendStart holds, and it refers to the head node and no other; what was pushed in the run is, in order, what is resolved followed by the queue; and a queued node has a write outstanding or a sender about to start one |
| SendQueue.OutstandingStays | core/src/TCP/TCPConnection.cpp:221-230 | the node an outstanding write refers to stays at the head until that write completes |
| SendQueue.DrainWork | core/src/TCP/TCPConnection.cpp:195-219 | without new sends every step does exactly one unit of the remaining work, also when writes fail |
| SendQueue.DrainEnd | core/src/TCP/TCPConnection.cpp:195-219 | a remaining step is possible exactly while there is work left, and without work everything pushed is resolved |
| SendQueue.QueueDrains | core/src/TCP/TCPConnection.cpp:181-231 | every run of remaining steps that cannot be continued has exactly that many steps and empties the queue |
| SendQueue.StartMatters | core/src/TCP/TCPConnection.cpp:24-34 | queued messages can never get stuck if and only if the flag is false at the first send |
| Channel.InvStep | core/src/TCP/TCPConnection.cpp:121-251 | every step of sender, socket, network and receiver keeps the channel invariant |
| Channel.ChannelSafety | core/src/TCP/TCPConnection.cpp:121-251 | in every reachable state the messages raised are a prefix of the non-empty messages sent, in push order, and the receiver only meets ASCII, so that no read is undefined |
| Channel.RunSafety | core/src/TCP/TCPConnection.cpp:121-251 | over whole runs, the messages raised are a prefix of the non-empty messages that the sends of the run were given |
| Channel.WorkStep | core/src/TCP/TCPConnection.cpp:121-251 | every step but a send lowers the remaining work of the channel |
| Channel.ChannelStops | core/src/TCP/TCPConnection.cpp:121-251 | from every reachable state, without new sends, the channel stops after at most the remaining work, in any order of steps |
| Channel.ChannelDelivery | core/src/TCP/TCPConnection.cpp:121-251 | in every reachable state in which no step but a send is possible, every non-empty message sent has been raised, and nothing is kept back in a buffer |
| Storage.StorageServer.KeyExists | core/src/Storage/StorageServer.cpp:34-37 | finds exactly the keys of the map |
| Storage.StorageServer.ReadValue | core/src/Storage/StorageServer.cpp:39-46 | the value of the key, or the empty text |
| Storage.StorageServer.WriteValue | core/src/Storage/StorageServer.cpp:48-51 | the key gets the value and nothing else changes |
| Storage.StorageServer.HandleReadMessage | core/src/Storage/StorageServer.cpp:133-175 | map and replies are what the fields of the message call for, in all cases, the malformed ones included, and equal the functions of the concurrent model |
| Storage.ReplyCount | core/src/Storage/StorageServer.cpp:136-174 | the number of replies is one plus the number of required fields missing from a parsed message, `value` being required of writes only |
| Storage.MeaningOfFields | core/src/Storage/StorageServer.cpp:133-175 | told from the JSON fields alone: a write with key and value stores the value under the key and answers ok; a read answers the stored value or that the key is not found; every other message changes nothing and gets exactly the errors the handler sends for it, in order |
| Storage.RunIsLastWrites | core/src/Storage/StorageServer.cpp:48-51 | after any messages the map holds exactly the keys stored, each with the `value` field of the last message that stored it |
| Storage.ReadsLatestWrite | core/src/Storage/StorageServer.cpp:149-153 | a read message answers with the `value` field of the latest message that stored its key |
| Storage.ReadsNothing | core/src/Storage/StorageServer.cpp:154-156 | a read message answers that the key is not found exactly when no message before it stored the key |
| Storage.OnlyWritesChange | core/src/Storage/StorageServer.cpp:158-174 | a message that has not the request `write`, a text as key and a text as value leaves the map as it is |
| StorageConcurrent.KeysStay | core/src/Storage/StorageServer.cpp:34-51 | no step of any handler removes a key |
| StorageConcurrent.GapIsSafe | core/src/Storage/StorageServer.cpp:151-153 | between keyExists and readValue the key does not get lost, so the fallback text is never returned |
| StorageConcurrent.InvTakeEffect | core/src/Storage/StorageServer.cpp:149-166 | any handler may take effect at the instant the sequential execution gives it its replies |
| StorageConcurrent.Linearizable | core/src/Storage/StorageServer.cpp:133-175 | in every interleaving each finished handler has an entry of its own in the log, between its call and its answer, and the map and the replies are those of executing the log one message at a time; the order respects real time and the order in which each connection called in the run |
| Replies.DumpLength | core/src/Storage/StorageServer.cpp:104-131 | the text of every reply has more than one character |
| Replies.ReadsObject | core/src/Storage/StorageServer.cpp:104-131 | a reader of JSON, which does not know the writer, gets from a dumped object its members in their order, whatever characters they hold |
| Replies.ReadsReply | core/src/Storage/StorageServer.cpp:104-131 | the reader sees status `error` and the description, status `ok` and the value, or status `ok` alone, for the three kinds of reply |
| Replies.DumpInjective | core/src/Storage/StorageServer.cpp:104-131 | different replies have different texts, whatever the stored values contain |
| Utf8.RoundTrip | core/src/Storage/StorageServer.cpp:104-131 | the bytes of every text, read as UTF-8, give the text back |
| Utf8.NoShorter | core/src/Storage/StorageServer.cpp:104-131 | no text has fewer bytes than characters |
| KeyValueSystem.RepliesAreSent | core/src/Storage/StorageServer.cpp:104-131 | no reply is too short to be encoded, and none is dropped as empty |
| KeyValueSystem.BytesSay | core/src/Storage/StorageServer.cpp:104-131 | the bytes sent for a reply, read as UTF-8 and then as JSON, are exactly the status and the description or value of this reply |
| KeyValueSystem.SayOneThing | core/src/Storage/StorageServer.cpp:104-131 | no bytes can be taken for two different replies |
| KeyValueSystem.ClientsMaySend | core/src/TCP/TCPConnection.cpp:233-251 | a thread of a client that is not sending already may send exactly the messages that do not have a single byte |
| KeyValueSystem.SystemRefinement | core/src/Storage/StorageServer.cpp:133-175 | in every reachable state with any number of clients, what took effect is for each client a prefix of its non-empty requests; each client has received messages that, read as UTF-8 and as JSON, say the first of the replies that executing this log one message at a time gives it; and the map is the one this execution ends with |
| KeyValueSystem.RunRefinement | core/src/Storage/StorageServer.cpp:133-175 | the same over whole runs, in the requests that the sends of each client in the run were given |
| KeyValueSystem.RealTime | core/src/Storage/StorageServer.cpp:133-175 | over two states of one run: a request whose replies its client has received comes, in the log, before every request any client sends later |
| KeyValueSystem.SystemDelivery | core/src/Storage/StorageServer.cpp:133-175 | when no step but a new request is possible, all requests took effect and what each client received says exactly its replies |
| KeyValueSystem.OneClient | core/src/Storage/StorageServer.cpp:133-175 | what a single client receives says the first of the replies the sequential map gives to its non-empty requests |
| SystemProgress.RankStep | core/src/TCP/TCPConnection.cpp:121-251 | every step of the system but a new request lowers a well-founded rank |
| SystemProgress.EverySchedulerFinishes | core/src/TCP/TCPConnection.cpp:121-251 | from every reachable state, under every scheduler of the remaining steps, the system comes to rest, and what every client has received then says exactly the replies of the sequential execution to the requests it had sent |
| Registry.RemoveCounts | core/src/TCP/TCPServer.cpp:209-227 | removal takes out all occurrences of an identifier and keeps the number of all others |
| Registry.RemoveAppend | core/src/TCP/TCPServer.cpp:209-227 | removal acts on each part of a list on its own, so the order of the rest is kept |
| Registry.WithoutUuids | core/src/TCP/TCPServer.cpp:209-227 | the identifiers left after a removal are those of the list without the removed one |
| Registry.WithoutMembers | core/src/TCP/TCPServer.cpp:209-227 | the connections left come from the list, and none has the identifier |
| Registry.WithoutAbsent | core/src/TCP/TCPServer.cpp:209-227 | nothing is removed when no connection has the identifier |
| Registry.TcpServer.GetConnectionByUUID | core/src/TCP/TCPServer.cpp:195-207 | finds the first connection with the identifier, and none exactly if there is none |
| Registry.TcpServer.RemoveConnectionByUUID | core/src/TCP/TCPServer.cpp:209-227 | ends on every list, also with duplicate identifiers, and leaves exactly the connections with other identifiers, in order |
| Registry.TcpServer.HandleAccept | core/src/TCP/TCPServer.cpp:52-77 | registers, subscribes and starts the connection, raises an accept error exactly if there was one and then the acceptance, and waits for the next connection; a fresh identifier keeps the identifiers distinct |
| Registry.TcpServer.HandleDisconnected | core/src/TCP/TCPServer.cpp:293-313 | a registered connection loses its slots, is removed and announced; otherwise nothing happens |
| Registry.TcpServer.HandleReadMessage | core/src/TCP/TCPServer.cpp:315-322 | the message passes on with its text exactly for a registered connection |
| Registry.TcpServer.HandleReadError | core/src/TCP/TCPServer.cpp:324-331 | a read error passes on exactly for a registered connection |
| Registry.TcpServer.HandleSendError | core/src/TCP/TCPServer.cpp:333-340 | a send error passes on exactly for a registered connection |
| Registry.TcpServer.Raise | core/src/TCP/TCPServer.cpp:293-340 | list, slots and events after a signal are those of the run model, and the registry stays valid |
| Registry.TcpServer.Disconnect | core/src/TCP/TCPServer.cpp:237-249 | exactly the connection with the identifier is unsubscribed, removed and announced |
| Registry.TcpServer.DisconnectAll | core/src/TCP/TCPServer.cpp:251-258 | the list ends empty, every connection that was registered is announced once, in list order, and unsubscribed |
| RegistryRuns.InvStep | core/src/TCP/TCPServer.cpp:52-77 | every accept, signal, stop, disconnectAll and posted clean-up keeps the registry invariant |
| RegistryRuns.RegistryDiscipline | core/src/TCP/TCPServer.cpp:293-340 | in every run identifiers stay distinct, events about a connection follow its acceptance, a connection is registered until its disconnection is raised, that is raised at most once, and nothing about the connection follows it |
| RegistryRuns.EveryStory | core/src/TCP/TCPServer.cpp:52-340 | in every run the subscribers see of each connection exactly its own story, told from its own events alone: its acceptance, after an error if there was one; every message with its text and every error it raises while registered, in order; its disconnection, however it comes; and nothing after it |
| RegistryRuns.DisconnectAllOnce | core/src/TCP/TCPServer.cpp:251-258 | in every run disconnectAll empties the list and raises the disconnection of each registered connection exactly once, in list order |

## Left out

- What a call that is `Undefined` in this model goes on to do: C++ defines no behaviour for it.
- Channel.ChannelSafety: runs in which a write fails, because the bytes a failed write leaves on the wire are unknown; the queue theorems include failed writes.
- KeyValueSystem.SystemRefinement: requests of exactly one byte, whose encoding is undefined; and the handler of a connection may be called before the read that raised its message has ended, and replies may be sent after their handler has ended, which only adds interleavings.
- Registry.TcpServer.DisconnectAll: handlers of other threads between its turns, and subscribers of the server that call back into it.
- `start()` running again, or without the lock, while messages are already queued.
- Callbacks that throw out of `handle_read`, which would lose `partMessage`.
- Memory exhaustion, and lengths beyond the range of `size_t`.
- Boost.Asio sockets, acceptors and `io_service`, and the Boost signal internals beyond connected slots.
- JSON parsing: a message arrives as the value its text parses to; duplicate keys and the text itself are not modelled.
- Stored values are texts of Unicode characters; the UTF-8 of incoming messages is part of the parsing. The reader of replies knows neither white space between tokens nor escaped surrogates, which `json.dump()` does not write.
- Logging, UUID generation, `waitStart`, `waitStop`, thread start and join, `tcp_client`, `StorageClient`, `connect`, `handle_connect`, `sendAll`, and the programs and tests.
