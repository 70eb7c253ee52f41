# Networking examples in Dafny: parsers, servers and a chat room

This project models the programs of the Boost.Asio example collection and proves
what they promise. Code that changes things in place is a class whose methods are
proved against value-level functions; theorems about whole runs are proved about
those functions. `dafny verify dfyconfig.toml` checks everything.

## The parts

- **Chat.** `ChatMessage` is the length-prefixed frame, `WriteQueue` the queue with
  one write in flight, `FrameStream` the byte stream cut into frames. `ChatRoom` is
  the room as a transition system whose atomic steps are the completion handlers
  (the program runs them all on one thread), with logs as history; `ChatServer` has
  the objects, proved to take its steps; `ChatClient` has the client and the theorem
  from one user's keyboard to another's screen.
- **Request parsers.** `RequestMachine` is the 20-state byte machine of server 1,
  `RequestCoroutine` the coroutine of server 3 with its yields as explicit resume
  points. `RequestGrammar` gives the language a grammar with derivation trees and
  proves the machine sound, complete and unambiguous for it, refusing at the earliest
  byte. `Lockstep` compares the parsers byte by byte; `CoroutineLanguage` carries the
  grammar theorems over to the coroutine, body included.
- **Printers and readers.** `Reply` prints replies and shows that the coroutine parser
  inverts the printer exactly for replies that say how long they are. `HttpClient`
  is the client's request printer and response reader. `UrlDecode` and `FileHandler`
  turn a URI into a file; `FileHandler.FileFetched` and `FileFetchedForking` join
  client, either server, handler and reader into one statement.
- **Lifecycles.** `Lifecycle` is server 1 from its first accept to its last completion
  after a stop, as a transition system over outstanding operations, and `HttpServer`
  its objects. `ForkingServer` is server 3, where each outstanding operation holds a
  copy of the coroutine and of its parser while sockets, buffers, requests and replies
  are shared; `ServerCoroutine` is the coroutine as an object.
- **Loops and arithmetic.** `ContextPool` is the round robin of server 2 and `Duff`
  the two unrolled copies. `Bytes` and `Text` hold bytes, character classes on the
  signed `char`, decimal text and `atoi`.

An asynchronous operation is modelled by what is outstanding; which one completes
next, with data or an error, is arbitrary. An operation begun on a closed socket can
only fail, and only a close aborts one. The runs of the two web servers also ask that
the completing handler's memory accesses are defined, and those of the chat programs
that a completed write has a message in the queue; that excludes nothing
(`Lifecycle.NothingUnsafe`, `ForkingServer.NothingDangles`, `ChatRoom.SingleWriter`,
`ChatClient.SingleWriter`). For each program a method that runs the objects over any
possible sequence of completions is proved to end in the transition system's state
(`ChatServer.Server.Run`, `ChatClient.ChatClient.Run`, `HttpServer.Serve`,
`ServerCoroutine.Serve`), so the theorems about runs are about the objects.

Library behaviour that the repository does not define is a parameter:
`lexical_cast<std::size_t>` is `cast`, reading two characters as hexadecimal is `hex`,
opening a file is `files`, and a server's request handler is a function of the request.
What a theorem needs of a parameter is a named predicate (`Reply.ReadsDecimals`,
`UrlDecode.ReadsHexPairs`). Uninitialised members (version numbers of a new request,
`content_length_`) are inputs: they hold what their memory happens to hold.

## Where code and description differ

The model follows the code.

- The grammar of RFC 1945, section 4.2, allows any white space, or none, after the
  colon of a header. The parsers require a space there
  (`RequestGrammar.SpaceIsRequired`), and further ones become part of the value
  (`RequestGrammar.MoreSpacesAreValue`). Continuation lines are joined with nothing in
  between, where section 2.2 has them mean a space.
- Server 1 accepts an empty URI and bytes above 127 in header values; server 3
  refuses both. `Lockstep` proves that up to the blank line nothing else differs.
- `content_length_` is documented to default to 0 (`request_parser.hpp` of server 3)
  but is only set by the first byte; nothing reads it before.
- `async_client.cpp` waits for `\r\n\r\n` behind the status line, so a reply without
  headers is read only if its content starts with a line end or has a blank line
  (`HttpClient.ReadIff`); an empty one is not (`HttpClient.EmptyReplyUnread`).
- `duff.cpp` does not say what its counts may be: `copy` runs away and `copy2` stores
  eight bytes for some counts that are not positive (`Duff.CopyEndsIff`, `Duff.Copy2`).
- Leaving the room does not end a session: one whose write has failed goes on reading
  and may still post. That is the only way for a session that is no participant to do
  so (`ChatRoom.ParticipantIff`, `ChatRoom.PosterIsOutIff`), and it happens
  (`ChatRoom.OutsiderPosts`).

## Model

| member | source | states |
|---|---|---|
| ChatRoom.TotalOrder | boost_asio/cpp_03_example/chat_server.cpp:41-150 | In every reachable state, under any interleaving of joins, reads, broadcasts and write completions or errors, `recent_msgs_` is the last 100 messages delivered, and what a session has been sent plus its queue is the room's log from 100 messages before it joined until it left, without gap, duplicate or reordering |
| ChatRoom.SessionsAgree | boost_asio/cpp_03_example/chat_server.cpp:57-67 | Two sessions have been handed the same message at every place of the log they both cover |
| ChatRoom.SingleWriter | boost_asio/cpp_03_example/chat_server.cpp:96-150 | In every reachable state a session has a write outstanding exactly when its queue is not empty and no write has failed; it is the unchanged front of the queue; a session whose write failed is no participant |
| ChatRoom.FailedStays | boost_asio/cpp_03_example/chat_server.cpp:136-150 | Over every continuation of a run, once a write to a session has failed nothing is ever written to it again |
| ChatRoom.ParticipantIff | boost_asio/cpp_03_example/chat_server.cpp:109-150 | In every reachable state a session is a participant exactly if no write to it has failed and its read loop has not stopped |
| ChatRoom.PosterIsOutIff | boost_asio/cpp_03_example/chat_server.cpp:122-150 | In every reachable state: a message is delivered exactly when a body has been read, it is the frame read, and its sender is no participant exactly if a write to it had failed |
| ChatRoom.OutsiderPosts | boost_asio/cpp_03_example/chat_server.cpp:122-150 | That does happen: a run whose last message is by session 0 while only session 1 is in the room |
| ChatRoom.HandedSlice | boost_asio/cpp_03_example/chat_server.cpp:44-67 | What a session has been handed is one contiguous piece of the log, all of it valid frames |
| ChatRoom.RelayedFramesValid | boost_asio/cpp_03_example/chat_server.cpp:109-134 | Every frame relayed decodes to the length of its own body and fits the 516-byte buffer |
| ChatRoom.PostedIsReceived | boost_asio/cpp_03_example/chat_server.cpp:109-134 | The frames a session has posted are those its received byte stream is cut into; all of them whenever it waits for a header |
| ChatRoom.StoppedIff | boost_asio/cpp_03_example/chat_server.cpp:109-134 | In every reachable state a session has stopped reading exactly if one of its reads has failed or it was sent four bytes whose number is not from 0 to 512 |
| ChatRoom.GoodStreamGoesOn | boost_asio/cpp_03_example/chat_server.cpp:109-134 | So a session whose reads have not failed goes on reading as long as what it was sent is a beginning of well-formed frames |
| ChatRoom.Conserved | boost_asio/cpp_03_example/chat_server.cpp:85-150 | Every client accepted has its session, which has received exactly the bytes its reads brought, has written one message for each write that succeeded, and counts as failed exactly if a write has |
| ChatRoom.NothingStuck | boost_asio/cpp_03_example/chat_server.cpp:85-150 | In every reachable state a session that has not stopped can be sent what it waits for or fail, one with messages queued can complete a write unless one has failed, and nothing else can complete |
| ChatRoom.StreamIsPosted | boost_asio/cpp_03_example/chat_server.cpp:109-134 | If a session has received a beginning of well-formed frames, it has posted a beginning of that sequence; and once everything has arrived and none of its reads has failed it has posted all of it, but for an empty body whose read is still outstanding |
| ChatRoom.StepKeeps | boost_asio/cpp_03_example/chat_server.cpp:41-150 | Every handler keeps the room's invariant: membership, history, queues and read loops |
| ChatServer.ChatSession.Deliver | boost_asio/cpp_03_example/chat_server.cpp:96-107 | Appends to the queue and starts a write only if none was in progress |
| ChatServer.ChatSession.Start | boost_asio/cpp_03_example/chat_server.cpp:85-94 | Joins, which replays the history, then reads a header: one step of the transition system |
| ChatServer.ChatSession.HandleReadHeader | boost_asio/cpp_03_example/chat_server.cpp:109-120 | One step: on to the body if the header decodes, else out of the room |
| ChatServer.ChatSession.HandleReadBody | boost_asio/cpp_03_example/chat_server.cpp:122-134 | One step: the frame relayed is, byte for byte, the frame read, delivered to every participant; or out of the room |
| ChatServer.ChatSession.HandleWrite | boost_asio/cpp_03_example/chat_server.cpp:136-150 | One step: pops the front and writes the next, or leaves after an error |
| ChatServer.Room.Join | boost_asio/cpp_03_example/chat_server.cpp:44-51 | The new participant's queue is the recent messages, in order, with the first in flight |
| ChatServer.Room.Leave | boost_asio/cpp_03_example/chat_server.cpp:53-55 | Only the participant set changes, and a second departure changes nothing |
| ChatServer.Room.Deliver | boost_asio/cpp_03_example/chat_server.cpp:57-67 | Remembers the message, trims to 100, and pushes it to exactly the participants |
| ChatServer.Room.Remember | boost_asio/cpp_03_example/chat_server.cpp:58-62 | The loop leaves the last 100 messages |
| ChatServer.Room.ReplayTo | boost_asio/cpp_03_example/chat_server.cpp:47-50 | Every recent message is pushed to the newcomer, in order |
| ChatServer.Room.Broadcast | boost_asio/cpp_03_example/chat_server.cpp:64-66 | Exactly the participants get the message, whatever the order they are visited in |
| ChatServer.ChatSession.TakeHeader | boost_asio/cpp_03_example/chat_server.cpp:109-110 | The header read is in the message and decoded |
| ChatServer.ChatSession.TakeBody | boost_asio/cpp_03_example/chat_server.cpp:122-125 | The message to relay is the header and body read, byte for byte |
| ChatServer.Server.Dispatch | boost_asio/cpp_03_example/chat_server.cpp:221-221 | Whatever operation completes, the objects take the step of the transition system |
| ChatServer.Server.HandleAccept | boost_asio/cpp_03_example/chat_server.cpp:171-189 | A failed accept changes nothing; another starts one session |
| ChatServer.Server.Run | boost_asio/cpp_03_example/chat_server.cpp:202-227 | Any possible run of completions takes the objects through the states of the transition system |
| ChatClient.EndToEnd | boost_asio/cpp_03_example/chat_client.cpp:87-153 | From keyboard to screen: what a session posts is a beginning of what was typed at its client, and what another client prints is, without gap, the bodies of the room's log from at most 100 before its session joined until it left; either is all of it once nothing waits to be written, everything written has been received and no read of the receiver has failed, but for an empty body still being read |
| ChatClient.ScreensAgree | boost_asio/cpp_03_example/chat_client.cpp:71-85 | Where what two clients have taken of the room's log overlaps, both screens show the very same text, between what only one was there for before and what only one has got to behind |
| ChatClient.SingleWriter | boost_asio/cpp_03_example/chat_client.cpp:87-118 | The single-writer property for the client in every reachable state |
| ChatClient.FailedStays | boost_asio/cpp_03_example/chat_client.cpp:103-118 | After a failed write the client writes nothing any more, whatever is typed |
| ChatClient.QueuedIsTyped | boost_asio/cpp_03_example/chat_client.cpp:145-153 | Written, queued and posted messages are the frames of the lines typed, in order; a line over 512 bytes ends the input, and text stops at a NUL |
| ChatClient.PrintsWhatArrives | boost_asio/cpp_03_example/chat_client.cpp:58-85 | The screen shows the bodies of the frames in the bytes received, one a line |
| ChatClient.ScreenIsLines | boost_asio/cpp_03_example/chat_client.cpp:71-85 | Cut at its newlines, the screen gives back the bodies of the messages, in order, if none holds a newline, as no line typed does |
| ChatClient.ReadsIff | boost_asio/cpp_03_example/chat_client.cpp:46-85 | In every reachable state the client reads exactly if its connect has succeeded, no read has failed and no header had a number outside 0 to 512 |
| ChatClient.GoodStreamIsTaken | boost_asio/cpp_03_example/chat_client.cpp:46-85 | A connected client whose reads have not failed goes on reading as long as it is sent a beginning of well-formed frames, and once all has arrived it has taken all |
| ChatClient.Conserved | boost_asio/cpp_03_example/chat_client.cpp:58-118 | The client has received exactly the bytes its reads brought, has written one message for each write that succeeded, and counts as failed exactly if a write has |
| ChatClient.ClosesAtEnd | boost_asio/cpp_03_example/chat_client.cpp:145-156 | The main loop has ended exactly if the input has or a line was over 512 bytes; then the close is the handler posted last, after every message, and once no handler is left the socket is closed |
| ChatClient.NothingStuck | boost_asio/cpp_03_example/chat_client.cpp:46-156 | In every reachable state a client that reads can be sent what it waits for or fail, posted handlers can run, and messages queued can be written unless a write has failed |
| ChatClient.OpenIffUndisturbed | boost_asio/cpp_03_example/chat_client.cpp:58-120 | The socket is open exactly as long as the posted close has not run, no read or write failed and no header was refused |
| ChatClient.ChatClient.DoClose | boost_asio/cpp_03_example/chat_client.cpp:120-120 | Closes the socket and changes nothing else |
| ChatClient.ChatClient.Finish | boost_asio/cpp_03_example/chat_client.cpp:155-156 | The end of input posts the close |
| ChatClient.ChatClient.Write | boost_asio/cpp_03_example/chat_client.cpp:34-38 | Posts a handler with a copy of the message |
| ChatClient.ChatClient.Close | boost_asio/cpp_03_example/chat_client.cpp:40-42 | Posts the close |
| ChatClient.ChatClient.HandlePosted | boost_asio/cpp_03_example/chat_client.cpp:34-42 | The handler posted first runs |
| ChatClient.ChatClient.Run | boost_asio/cpp_03_example/chat_client.cpp:143-156 | Any possible run of lines, posted handlers and completions takes the object through the states of the transition system |
| ChatClient.ChatClient.DoWrite | boost_asio/cpp_03_example/chat_client.cpp:87-101 | Appends to the queue and starts a write only if none was in progress |
| ChatClient.ChatClient.HandleWrite | boost_asio/cpp_03_example/chat_client.cpp:103-118 | Pops the front and writes the next, or closes the socket after an error |
| ChatClient.ChatClient.HandleConnect | boost_asio/cpp_03_example/chat_client.cpp:46-56 | Starts the read loop, or nothing after an error |
| ChatClient.ChatClient.HandleReadHeader | boost_asio/cpp_03_example/chat_client.cpp:58-69 | On to the body if the header decodes, else the socket is closed |
| ChatClient.ChatClient.HandleReadBody | boost_asio/cpp_03_example/chat_client.cpp:71-85 | Prints the body and a newline and reads the next header, or closes |
| ChatClient.ChatClient.Turn | boost_asio/cpp_03_example/chat_client.cpp:145-153 | A line typed is posted as the frame of its body, or ends the input |
| ChatMessage.DecodeInvertsEncode | boost_asio/cpp_03_example/chat_message.hpp:66-86 | Decoding an encoded length gives it back for all lengths from 0 to 512, space padding included |
| ChatMessage.DecodedExactly | boost_asio/cpp_03_example/chat_message.hpp:66-78 | For any four bytes, NULs, signs, blanks and junk included, the header is accepted exactly when the number it spells is from 0 to 512; negative ones are refused through the conversion to `size_t` |
| ChatMessage.DecodedNumeral | boost_asio/cpp_03_example/chat_message.hpp:66-78 | Four bytes written as blanks, a sign or none, digits and anything else: accepted exactly if the number is from 0 to 512, with a minus sign only for 0 |
| ChatMessage.HeaderTextIs | boost_asio/cpp_03_example/chat_message.hpp:80-86 | The encoded length is its decimal digits at the right of four columns |
| ChatMessage.FrameOfIsValid | boost_asio/cpp_03_example/chat_message.hpp:80-86 | A body up to 512 bytes behind its encoded length is a valid frame, and the body is what follows the header |
| ChatMessage.Message.SetBodyLength | boost_asio/cpp_03_example/chat_message.hpp:59-64 | Clamps to 512 |
| ChatMessage.Message.DecodeHeader | boost_asio/cpp_03_example/chat_message.hpp:66-78 | Accepts and sets the length that the four bytes spell, or sets 0 |
| ChatMessage.Message.EncodeHeader | boost_asio/cpp_03_example/chat_message.hpp:80-86 | Writes the padded length into the first four bytes and nothing else |
| ChatMessage.Message.Fill | boost_asio/cpp_03_example/chat_message.hpp:34-52 | Bytes land at an offset of the message and nothing else changes |
| ChatMessage.Message.Compose | boost_asio/cpp_03_example/chat_client.cpp:148-151 | A line becomes the valid frame of its (clamped) bytes |
| WriteQueue.AlwaysSound | boost_asio/cpp_03_example/chat_server.cpp:96-150 | Over every run of messages and completions: at most one write, of the unchanged front; written and queued are all that was pushed, in order |
| WriteQueue.FailureIsFinal | boost_asio/cpp_03_example/chat_server.cpp:136-150 | After a failed write no further write is ever started |
| WriteQueue.WireIsPrefix | boost_asio/cpp_03_example/chat_client.cpp:87-118 | The bytes on the wire are a beginning of the messages queued, joined in order; all of them when the queue is empty |
| FrameStream.ParseConcat | boost_asio/cpp_03_example/chat_message.hpp:66-86 | Cutting a stream into frames undoes joining them, whatever comes behind |
| FrameStream.ParsePrefix | boost_asio/cpp_03_example/chat_server.cpp:109-134 | From any beginning of a joined stream a beginning of the frames is recovered, and all of them from all of it |
| FrameStream.ReadSideParses | boost_asio/cpp_03_example/chat_server.cpp:109-134 | The frames a header-then-body read loop has taken are those the stream is cut into |
| FrameStream.ArrivedIsTaken | boost_asio/cpp_03_example/chat_server.cpp:109-134 | A read loop that has not stopped has taken all frames once their bytes have arrived, but for an empty body whose read is still outstanding |
| FrameStream.NothingRefused | boost_asio/cpp_03_example/chat_server.cpp:109-120 | No header is refused in a beginning of well-formed frames |
| RequestMachine.RunConcat | boost_asio/cpp_03_example/boost_http_server_1/src/request_parser.hpp:35-49 | Chunk invariance of `parse`: splitting the input between two calls changes neither verdict, nor byte, nor request |
| RequestMachine.RunStopsAtVerdict | boost_asio/cpp_03_example/boost_http_server_1/src/request_parser.hpp:35-49 | Bytes after a definite verdict never affect the outcome |
| RequestMachine.RequestParser.Consume | boost_asio/cpp_03_example/boost_http_server_1/src/request_parser.cpp:22-207 | The twenty-state switch, updating state and request in place, computes the transition function |
| RequestMachine.RequestParser.Parse | boost_asio/cpp_03_example/boost_http_server_1/src/request_parser.hpp:35-49 | The loop over a buffer computes the run of the transition function, and stops at its verdict |
| RequestMachine.Step | boost_asio/cpp_03_example/boost_http_server_1/src/request_parser.cpp:22-207 | `headers.back()` is only evaluated on a non-empty list; true comes exactly at the LF of the blank line; a verdict leaves state and request alone |
| RequestMachine.RequestParser.Reset | boost_asio/cpp_03_example/boost_http_server_1/src/request_parser.cpp:17-19 | Back to the start state |
| Bytes.WhichBytes | boost_asio/cpp_03_example/boost_http_server_1/src/request_parser.cpp:209-241 | The character classes on a signed `char`, as sets of byte values: no byte above 127 is in any |
| RequestGrammar.AcceptedIsMessage | boost_asio/cpp_03_example/boost_http_server_1/src/request_parser.cpp:22-207 | Soundness: whatever `parse` accepts is a request line, header lines with folded continuations and CRLF, and the request holds that derivation's values, folds joined with nothing between |
| RequestGrammar.MessageIsAccepted | boost_asio/cpp_03_example/boost_http_server_1/src/request_parser.cpp:22-207 | Completeness: every message of the grammar is accepted, exactly on its last byte, whatever follows, with its meaning as the request |
| RequestGrammar.DerivationsUnique | boost_asio/cpp_03_example/boost_http_server_1/src/request_parser.cpp:22-207 | Unambiguity: no text has two derivations, and no message is a proper beginning of another |
| RequestGrammar.RefusedEarliest | boost_asio/cpp_03_example/boost_http_server_1/src/request_parser.cpp:22-207 | A refusal comes at the first byte after which no message is possible, and not later |
| RequestGrammar.Completable | boost_asio/cpp_03_example/boost_http_server_1/src/request_parser.cpp:22-207 | From every state some continuation is accepted: an undecided parser is never stuck |
| RequestGrammar.SpaceIsRequired | boost_asio/cpp_03_example/boost_http_server_1/src/request_parser.cpp:163-181 | After any well-formed beginning, a header name and colon must be followed by a space: any other byte is refused there |
| RequestGrammar.MoreSpacesAreValue | boost_asio/cpp_03_example/boost_http_server_1/src/request_parser.cpp:175-194 | Further spaces are the beginning of the value |
| RequestGrammar.ReachedIsClean | boost_asio/cpp_03_example/boost_http_server_1/src/request_parser.cpp:132-203 | In every reachable state `headers` is not empty where `headers.back()` is used, method and header names are non-empty tokens from their first byte, the URI has no space or control byte and values no control byte |
| RequestGrammar.StepDerives | boost_asio/cpp_03_example/boost_http_server_1/src/request_parser.cpp:22-207 | Every byte extends a partial derivation whose text is what has been read and whose meaning is the request so far |
| RequestGrammar.RunTracks | boost_asio/cpp_03_example/boost_http_server_1/src/request_parser.cpp:22-207 | Machine and derivation move together over any input |
| RequestCoroutine.Run3Concat | boost_asio/cpp_03_example/boost_http_server_3/request_parser.hpp:31-45 | Chunk invariance of the coroutine parser, its content loop included |
| RequestCoroutine.ScanLengthMeaning | boost_asio/cpp_03_example/boost_http_server_3/request_parser.cpp:151-166 | The Content-Length scan fails exactly if some such header is malformed, and otherwise the last one counts, or 0 |
| RequestCoroutine.IsLengthIff | boost_asio/cpp_03_example/boost_http_server_3/request_parser.cpp:211-223 | A header is a Content-Length exactly if its name has 14 bytes, each that of `content-length` or that of `CONTENT-LENGTH` |
| RequestCoroutine.CoroutineParser.Consume | boost_asio/cpp_03_example/boost_http_server_3/request_parser.cpp:25-177 | The coroutine run from its resume point to the next yield computes the resumption function |
| RequestCoroutine.CoroutineParser.ConsumeProtocol | boost_asio/cpp_03_example/boost_http_server_3/request_parser.cpp:62-74 | The fixed bytes of the protocol name |
| RequestCoroutine.CoroutineParser.ConsumeHeader | boost_asio/cpp_03_example/boost_http_server_3/request_parser.cpp:102-149 | The header loop, from any of its yields to the next |
| RequestCoroutine.CoroutineParser.ConsumeLineStart | boost_asio/cpp_03_example/boost_http_server_3/request_parser.cpp:103-116 | The top of the loop: a continuation, a new header or the end |
| RequestCoroutine.CoroutineParser.ConsumeName | boost_asio/cpp_03_example/boost_http_server_3/request_parser.cpp:118-129 | The name loop, the colon and the space |
| RequestCoroutine.CoroutineParser.ConsumeValue | boost_asio/cpp_03_example/boost_http_server_3/request_parser.cpp:132-141 | The value loop and its CR |
| RequestCoroutine.Run3Length | boost_asio/cpp_03_example/boost_http_server_3/request_parser.cpp:35-174 | Between the first byte and the content `content_length_` is 0, whatever it held before |
| RequestCoroutine.FullRequestObject.Clear | boost_asio/cpp_03_example/boost_http_server_3/request_parser.cpp:29-34 | The first byte clears whatever the request object held |
| RequestCoroutine.CoroutineParser.ScanHeaders | boost_asio/cpp_03_example/boost_http_server_3/request_parser.cpp:151-166 | The scanning loop finds the length of the last Content-Length, or a malformed one |
| RequestCoroutine.CoroutineParser.HeadersEqualLoop | boost_asio/cpp_03_example/boost_http_server_3/request_parser.cpp:211-223 | Header names are equal regardless of case, byte by byte |
| RequestCoroutine.CoroutineParser.Parse | boost_asio/cpp_03_example/boost_http_server_3/request_parser.hpp:31-45 | The loop over a buffer computes the run of the coroutine and stops at its verdict |
| Lockstep.OneByte | boost_asio/cpp_03_example/boost_http_server_3/request_parser.cpp:25-177 | One byte takes both parsers to the same verdict and request, except a space for an empty URI and a byte above 127 in a value; at the blank line the coroutine goes by its length rule |
| Lockstep.Lockstep | boost_asio/cpp_03_example/boost_http_server_3/request_parser.cpp:25-177 | On every input the parsers agree on verdict, byte and request until the first of those two bytes, where the coroutine refuses; after the blank line the coroutine's outcome is exactly its length rule's |
| Lockstep.DivergenceIsVisible | boost_asio/cpp_03_example/boost_http_server_1/src/request_parser.cpp:44-56 | Whether the parsers ever diverged can be read off the machine's request: an empty URI or a byte above 127 in a value |
| CoroutineLanguage.AcceptsWhatMachineAccepts | boost_asio/cpp_03_example/boost_http_server_3/request_parser.cpp:25-177 | The coroutine accepts exactly the inputs the machine accepts with a non-empty URI, ASCII values and a Content-Length that is well formed and met |
| CoroutineLanguage.FramedIsAccepted | boost_asio/cpp_03_example/boost_http_server_3/request_parser.cpp:25-177 | Completeness: such a message and its body are accepted exactly on the last byte, with both in the request |
| CoroutineLanguage.AcceptedIsFramed | boost_asio/cpp_03_example/boost_http_server_3/request_parser.cpp:25-177 | Soundness: whatever is accepted is such a message and a body of the announced length |
| CoroutineLanguage.CaseIsIgnored | boost_asio/cpp_03_example/boost_http_server_3/request_parser.cpp:151-166 | Writing letters of header names in the other case changes neither verdict, nor the byte it comes at, nor the body, whatever follows the message |
| CoroutineLanguage.RefusedEarliestToo | boost_asio/cpp_03_example/boost_http_server_3/request_parser.cpp:25-177 | The coroutine refuses at the earliest byte too: what was read before it begins an acceptable message; with it none begins, or it was the last byte of one whose Content-Length is malformed |
| CoroutineLanguage.CompletableTogether | boost_asio/cpp_03_example/boost_http_server_3/request_parser.cpp:25-177 | While the parsers are together, some continuation completes a message that both accept the head of |
| Reply.ToBuffers | boost_asio/cpp_03_example/boost_http_server_3/reply.cpp:103-118 | The buffers, gathered, are the status line, the headers, a blank line and the content; three and four a header |
| Reply.StockReply | boost_asio/cpp_03_example/boost_http_server_3/reply.cpp:242-253 | A stock reply has its page, the page's length in decimal and its type |
| Reply.ErrorPages | boost_asio/cpp_03_example/boost_http_server_3/reply.cpp:242-253 | The pages of the two errors the file handler answers with |
| Reply.ReplyReadBack | boost_asio/cpp_03_example/boost_http_server_3/reply.cpp:103-118 | After any request line, everything a printable reply prints behind its status line takes the coroutine parser to its length rule's outcome, with the reply's own headers |
| Reply.ReadBackIffFramed | boost_asio/cpp_03_example/boost_http_server_3/reply.cpp:103-118 | A printable reply is read back whole, exactly on its last byte, with the same headers and content, if and only if the headers say how long the content is |
| Reply.ReadBackIff | boost_asio/cpp_03_example/boost_http_server_3/reply.cpp:103-118 | Any reply at all is read back on its last byte with its own headers and content if and only if its header names are tokens, its values ASCII without control bytes, and its headers say how long the content is |
| Reply.LastLengthFrames | boost_asio/cpp_03_example/boost_http_server_3/reply.cpp:103-118 | They do if the last Content-Length is the content's length, given that none is malformed |
| Reply.StockRepliesAreFramed | boost_asio/cpp_03_example/boost_http_server_3/reply.cpp:242-253 | Every stock reply is printable and framed, given only that the library reads back decimal sizes below 2^64 |
| UrlDecode.UrlDecode | boost_asio/cpp_03_example/boost_http_server_3/file_handler.cpp:82-119 | The index loop computes the decoding of the text, or refuses it |
| UrlDecode.DecodeConcat | boost_asio/cpp_03_example/boost_http_server_3/file_handler.cpp:82-119 | Decoding is compositional: behind a part that decodes, the rest decodes on its own and the results are joined |
| UrlDecode.DecodeContracts | boost_asio/cpp_03_example/boost_http_server_3/file_handler.cpp:82-119 | The result is shorter by exactly two bytes an escape |
| UrlDecode.DecodeFailsIff | boost_asio/cpp_03_example/boost_http_server_3/file_handler.cpp:82-119 | Decoding fails exactly if some '%' reached from the left lacks two characters behind it, or two that read as hexadecimal |
| UrlDecode.DecodeInvertsEncode | boost_asio/cpp_03_example/boost_http_server_3/file_handler.cpp:82-119 | Every percent-encoding of a byte string, bytes written raw, escaped in either case or as '+', decodes to it |
| FileHandler.FileHandler.Handle | boost_asio/cpp_03_example/boost_http_server_3/file_handler.cpp:28-80 | Bad request, not found, or the whole file with its length and the type of its extension |
| FileHandler.RespondIff | boost_asio/cpp_03_example/boost_http_server_3/file_handler.cpp:28-80 | The reply is 400 exactly if the URI does not decode, or decodes to a path that is empty, does not begin with a slash or has two dots in a row; otherwise 404 exactly if the file, with the index added behind a last slash, does not open; otherwise 200 with that file, its length and its type |
| FileHandler.TypeIsByEnding | boost_asio/cpp_03_example/boost_http_server_3/mime_types.cpp:19-43 | The type found by the last dot and slash is that of the five endings the path may have, else plain text |
| FileHandler.FileHandler.ReadAll | boost_asio/cpp_03_example/boost_http_server_3/file_handler.cpp:71-74 | The loop over 512-byte reads collects the whole file |
| FileHandler.OkIsFileInside | boost_asio/cpp_03_example/boost_http_server_3/file_handler.cpp:28-80 | An ok reply's content is that of the file named by the root and the decoded URI, with the index added to a directory; neither that path nor what a NUL leaves of it has a segment ".." |
| FileHandler.OpenedBelowRoot | boost_asio/cpp_03_example/boost_http_server_3/file_handler.cpp:62-63 | The name opened is the root and, behind it, the path up to its first NUL |
| FileHandler.NoDotsInside | boost_asio/cpp_03_example/boost_http_server_3/file_handler.cpp:38-44 | A path without two dots in a row has no segment ".." |
| FileHandler.ExtensionIsLastPart | boost_asio/cpp_03_example/boost_http_server_3/file_handler.cpp:52-59 | The extension is what follows the last dot if that dot is in the last segment, and has no dot or slash |
| FileHandler.RepliesFramed | boost_asio/cpp_03_example/boost_http_server_3/file_handler.cpp:28-80 | Every reply of the handler, to any request, is printable and framed, so the parser reads it back whole; the content's size is one that `size_t` has |
| FileHandler.FileFetched | boost_asio/cpp_03_example/boost_http_server_1/src/connection.cpp:39-90 | End to end, over any run of the server: any percent-encoded path the client asks for is answered with the file's page, and the client, however the reply is cut up, puts out its two header lines, an empty line and exactly the file's bytes, but for those still missing |
| FileHandler.FileFetchedForking | boost_asio/cpp_03_example/boost_http_server_3/server.cpp:76-118 | The same of the forking coroutine and its file handler, for any ASCII host, over any run and however many copies of the coroutine are about |
| HttpClient.WriteRequest | boost_asio/cpp_03_example/boost_http_server_1/src/async_client.cpp:28-33 | The request stream holds the text, in the parser's grammar, of a GET message for version 1.0 with three headers |
| HttpClient.TextIsPrinted | boost_asio/cpp_03_example/boost_http_server_1/src/async_client.cpp:28-33 | The text written, literally, is the printed message |
| HttpClient.WellFormedIff | boost_asio/cpp_03_example/boost_http_server_1/src/async_client.cpp:28-33 | That message is well formed exactly if the host has no control byte and the path no control byte or space |
| HttpClient.PathEndToEnd | boost_asio/cpp_03_example/boost_http_server_1/src/async_client.cpp:28-33 | For every byte string and every percent-encoding of it without space or control byte, the server's machine accepts the client's request exactly on its last byte, GET, version 1.0, the three headers, and decoding the parsed URI gives the byte string |
| HttpClient.EncodingIsUri | boost_asio/cpp_03_example/boost_http_server_3/file_handler.cpp:82-119 | An encoding has no space or control byte exactly if none is written raw |
| HttpClient.StatusLinesRead | boost_asio/cpp_03_example/boost_http_server_1/src/async_client.cpp:82-100 | For each of the sixteen statuses, whatever follows: an ok status line is accepted and exactly what follows it is left; any other is refused with its own number |
| HttpClient.BeginningRead | boost_asio/cpp_03_example/boost_http_server_1/src/async_client.cpp:82-100 | A response of blanks, a word that begins with `HTTP/`, blanks, a sign or none, a number below 2^32 and at least one byte more is taken for that number, a negated one wrapped: 200 goes on behind the line, anything else is refused with it |
| HttpClient.InvalidIff | boost_asio/cpp_03_example/boost_http_server_1/src/async_client.cpp:91-95 | Exactly the other responses are reported as invalid |
| HttpClient.BlockRead | boost_asio/cpp_03_example/boost_http_server_1/src/async_client.cpp:112-133 | The getline loop inverts the header printer: one line a header, in order, and what is left is what followed the blank line |
| HttpClient.CalledWhenBlockArrived | boost_asio/cpp_03_example/boost_http_server_1/src/async_client.cpp:102-106 | With at least one header the header handler is called exactly when the whole header block has arrived |
| HttpClient.NotCalledEarly | boost_asio/cpp_03_example/boost_http_server_1/src/async_client.cpp:102-106 | With or without headers it is never called before that |
| HttpClient.CalledIff | boost_asio/cpp_03_example/boost_http_server_1/src/async_client.cpp:102-106 | It is called at all exactly if there is a header, or the content starts with a line end or has a blank line |
| HttpClient.ReadIff | boost_asio/cpp_03_example/boost_http_server_1/src/async_client.cpp:82-148 | So exactly those ok replies are read, and they are shown whole |
| HttpClient.EmptyReplyUnread | boost_asio/cpp_03_example/boost_http_server_1/src/async_client.cpp:102-106 | A reply that is not: neither header nor content |
| HttpClient.ReplyReadByClient | boost_asio/cpp_03_example/boost_http_server_1/src/async_client.cpp:82-133 | For every ok reply with no LF in header names or values, however much has arrived when each handler runs, the client reads the headers and leaves exactly the content |
| HttpClient.ReplyShown | boost_asio/cpp_03_example/boost_http_server_1/src/async_client.cpp:82-148 | Over a run of all its handlers the client's output is the header lines as they were sent, an empty line and the content, but for what has not arrived |
| HttpClient.ResponseReader.Receive | boost_asio/cpp_03_example/boost_http_server_1/src/async_client.cpp:82-148 | The handlers, run over what has arrived when each is called, put that output out |
| HttpClient.ResponseReader.HandleReadStatusLine | boost_asio/cpp_03_example/boost_http_server_1/src/async_client.cpp:82-106 | Goes on behind an ok status line; otherwise says what is wrong and stops |
| HttpClient.ResponseReader.HandleReadHeaders | boost_asio/cpp_03_example/boost_http_server_1/src/async_client.cpp:112-133 | The loop puts out the header lines, then an empty line, then what content there is |
| HttpClient.ResponseReader.HandleReadContent | boost_asio/cpp_03_example/boost_http_server_1/src/async_client.cpp:135-148 | Shows everything read since, in order, and empties the buffer |
| Lifecycle.DigestParsing | boost_asio/cpp_03_example/boost_http_server_1/src/connection.cpp:39-71 | Parsing what one more read brought leaves the connection where one parse of everything received would be |
| Lifecycle.AliveMeansBusy | boost_asio/cpp_03_example/boost_http_server_1/src/server.cpp:58-95 | In every reachable state: before the stop exactly one accept is outstanding; a connection is in `connections_` exactly while its socket is open, and then has exactly one outstanding operation, a read before the verdict and a write after |
| Lifecycle.OpenUntilClosed | boost_asio/cpp_03_example/boost_http_server_1/src/connection.cpp:39-90 | A connection once started is open exactly as long as there was no stop, no write completed and no operation failed other than by being cancelled; so until then it reads or writes |
| Lifecycle.StartedAndReceived | boost_asio/cpp_03_example/boost_http_server_1/src/server.cpp:70-86 | Exactly the accepts that succeeded before the stop have started a connection, which has received what its reads brought |
| Lifecycle.ReadsAreOneParse | boost_asio/cpp_03_example/boost_http_server_1/src/connection.cpp:39-75 | However its bytes were split into reads, a connection is where one parse of all of them would be, and has begun one reply exactly when that parse has a verdict |
| Lifecycle.AnsweredIsMessage | boost_asio/cpp_03_example/boost_http_server_1/src/connection.cpp:39-75 | The handler's reply is begun only for a well-formed message that has been received, and is the reply for that message's meaning |
| Lifecycle.MessageIsAnswered | boost_asio/cpp_03_example/boost_http_server_1/src/connection.cpp:39-75 | And it is begun for every such message, whatever follows it |
| Lifecycle.Drains | boost_asio/cpp_03_example/boost_http_server_1/src/server.cpp:88-95 | After a stop the set stays empty, no connection is started, and every continuation is no longer than the outstanding operations allow |
| Lifecycle.EndsEmpty | boost_asio/cpp_03_example/boost_http_server_1/src/server.cpp:50-56 | Nothing more can complete exactly when nothing is outstanding, which is only after a stop, with every socket closed |
| Lifecycle.StepDrains | boost_asio/cpp_03_example/boost_http_server_1/src/connection_manager.cpp:30-34 | Every completion after a stop uses outstanding operations up: those begun on a closed socket can only fail |
| Lifecycle.StepKeeps | boost_asio/cpp_03_example/boost_http_server_1/src/server.cpp:58-95 | Every handler keeps the lifecycle invariant |
| Lifecycle.NothingUnsafe | boost_asio/cpp_03_example/boost_http_server_1/src/connection.cpp:39-75 | Whatever can complete in a reachable state can be handled, the parser only looking at headers that are there, and extends the run |
| HttpServer.Connection.Parse | boost_asio/cpp_03_example/boost_http_server_1/src/connection.cpp:39-71 | A buffer of data is parsed into the request in place, and a write of the right reply or another read begun |
| HttpServer.Connection.HandleRead | boost_asio/cpp_03_example/boost_http_server_1/src/connection.cpp:39-75 | One step of the lifecycle: parse, or stop the connection unless the read was aborted |
| HttpServer.Connection.HandleWrite | boost_asio/cpp_03_example/boost_http_server_1/src/connection.cpp:79-90 | One step of the lifecycle: the connection is stopped unless the write was aborted |
| HttpServer.ConnectionManager.Start | boost_asio/cpp_03_example/boost_http_server_1/src/connection_manager.cpp:18-23 | Inserts the connection and starts its first read |
| HttpServer.ConnectionManager.Stop | boost_asio/cpp_03_example/boost_http_server_1/src/connection_manager.cpp:25-28 | Erases the connection and closes its socket, no other |
| HttpServer.ConnectionManager.StopAll | boost_asio/cpp_03_example/boost_http_server_1/src/connection_manager.cpp:30-34 | Closes exactly the live connections and clears the set |
| HttpServer.Connection.Start | boost_asio/cpp_03_example/boost_http_server_1/src/connection.cpp:28-33 | Begins one read |
| HttpServer.Connection.Stop | boost_asio/cpp_03_example/boost_http_server_1/src/connection.cpp:37-37 | Closes the socket and changes nothing else |
| HttpServer.Server.StartAccept | boost_asio/cpp_03_example/boost_http_server_1/src/server.cpp:58-68 | A new connection object and one more accept |
| HttpServer.Server.HandleAccept | boost_asio/cpp_03_example/boost_http_server_1/src/server.cpp:58-86 | One step of the lifecycle: nothing after a stop, else the connection is started and the next accept begun |
| HttpServer.Server.HandleStop | boost_asio/cpp_03_example/boost_http_server_1/src/server.cpp:88-95 | One step of the lifecycle: the acceptor and all connections are closed |
| HttpServer.Server.Dispatch | boost_asio/cpp_03_example/boost_http_server_1/src/server.cpp:50-56 | Whatever operation completes, the objects take the step of the transition system, and only new ones are added |
| HttpServer.Serve | boost_asio/cpp_03_example/boost_http_server_1/src/server.cpp:18-56 | Any possible run of completions from the constructor on takes the objects through the states of the transition system |
| HttpServer.Server.constructor | boost_asio/cpp_03_example/boost_http_server_1/src/server.cpp:18-48 | One accept and one signal wait outstanding, no connection, and all objects new |
| ForkingServer.OneWaits | boost_asio/cpp_03_example/boost_http_server_3/server.cpp:43-72 | In every run exactly one copy of the coroutine waits for an accept, until an accept fails |
| ForkingServer.AcceptedIsServed | boost_asio/cpp_03_example/boost_http_server_3/server.cpp:67-118 | Every client accepted has its own buffer and request; and until one of its operations fails or its reply is written, and no longer, exactly one copy of the coroutine serves it with those: it reads until a reply is begun, then writes |
| ForkingServer.ArrivedIsBrought | boost_asio/cpp_03_example/boost_http_server_3/server.cpp:86-86 | What has arrived on a socket is what the reads on it have brought |
| ForkingServer.CopiesApart | boost_asio/cpp_03_example/boost_http_server_3/server.cpp:49-86 | No two copies share a socket, a buffer or a request, and the one waiting has a fresh parser and an untouched socket |
| ForkingServer.NothingDangles | boost_asio/cpp_03_example/boost_http_server_3/server.cpp:32-120 | Whatever completes, the copy that resumes finds every object it dereferences |
| ForkingServer.OneParsePerSocket | boost_asio/cpp_03_example/boost_http_server_3/server.cpp:76-118 | Although the parser is copied with every operation, a child's verdict is that of one parse of everything it has read, and it begins at most one reply, the one that verdict calls for |
| ForkingServer.AnsweredIsFramed | boost_asio/cpp_03_example/boost_http_server_3/server.cpp:76-114 | The handler's reply is begun only for a well-formed message followed by the body it announces |
| ForkingServer.FramedIsAnswered | boost_asio/cpp_03_example/boost_http_server_3/server.cpp:76-114 | And for every such message and body that has been parsed |
| ForkingServer.StepKeeps | boost_asio/cpp_03_example/boost_http_server_3/server.cpp:32-120 | Every completion and every handler keeps the invariant of copies and shared objects |
| ServerCoroutine.Server.Call | boost_asio/cpp_03_example/boost_http_server_3/server.cpp:32-120 | The coroutine, run from its resume point to the next yield and forking itself, takes a step of the transition system; with an error it starts nothing |
| ServerCoroutine.Server.AcceptNext | boost_asio/cpp_03_example/boost_http_server_3/server.cpp:47-59 | A new socket, and a copy of the coroutine waits for it |
| ServerCoroutine.Server.FirstReadOn | boost_asio/cpp_03_example/boost_http_server_3/server.cpp:75-86 | The child's own buffer and request, and its first read with a copy of the coroutine |
| ForkingServer.WholeGrows | boost_asio/cpp_03_example/boost_http_server_3/server.cpp:86-95 | Parsing a read with the copied parser continues the parse of everything before it |
| ServerCoroutine.Server.ParseThenGoOn | boost_asio/cpp_03_example/boost_http_server_3/server.cpp:86-114 | Parses the read, then reads on, or makes the reply and begins its write |
| ServerCoroutine.Server.ParseBuffer | boost_asio/cpp_03_example/boost_http_server_3/server.cpp:89-92 | The coroutine's own parser parses the buffer into the shared request, in place, and no other request changes |
| ServerCoroutine.Server.BeginReply | boost_asio/cpp_03_example/boost_http_server_3/server.cpp:98-114 | The reply object is made and its write begun |
| ServerCoroutine.Io.Complete | boost_asio/cpp_03_example/boost_http_server_3/server.cpp:86-86 | A completed read fills the front of its own buffer and no other |
| ServerCoroutine.Serve | boost_asio/cpp_03_example/boost_http_server_3/server.cpp:32-120 | Any possible run of completions and handlers takes the objects through the states of the transition system |
| ServerCoroutine.Io.RunHandler | boost_asio/cpp_03_example/boost_http_server_3/server.cpp:32-120 | Invoking the copy stored in a completed operation is a step of the transition system |
| ServerCoroutine.Launch | boost_asio/cpp_03_example/boost_http_server_3/server.cpp:43-59 | The first call leaves one copy waiting for an accept |
| ContextPool.Balanced | boost_asio/cpp_03_example/boost_http_server_2/src/io_context_pool.cpp:60-68 | After any number of draws every context has been returned that number divided by the size, rounded up exactly for those before the cursor and down for the others |
| ContextPool.CursorIsRemainder | boost_asio/cpp_03_example/boost_http_server_2/src/io_context_pool.cpp:60-68 | The cursor is the number of draws modulo the size |
| ContextPool.DrawAt | boost_asio/cpp_03_example/boost_http_server_2/src/io_context_pool.cpp:60-68 | The k-th draw returns context k modulo the size |
| ContextPool.ConnectionsBalanced | boost_asio/cpp_03_example/boost_http_server_2/src/server.cpp:52-69 | Although two draws go to signals and acceptor, no context gets two connections more than another |
| ContextPool.Pool.GetIoContext | boost_asio/cpp_03_example/boost_http_server_2/src/io_context_pool.cpp:60-68 | Returns the context at the cursor and advances it, back to 0 at the end |
| ContextPool.Pool.Make | boost_asio/cpp_03_example/boost_http_server_2/src/io_context_pool.cpp:20-35 | No pool of no contexts |
| ContextPool.Server.ConnectionContext | boost_asio/cpp_03_example/boost_http_server_2/src/server.cpp:17-57 | The k-th connection object is on context (k + 2) modulo the size |
| ContextPool.Server.HandleAccept | boost_asio/cpp_03_example/boost_http_server_2/src/server.cpp:52-69 | Starts the waiting connection unless there was an error, and draws a context for the next |
| Duff.Copy | boost_asio/duff.cpp:4-35 | For every positive count: ends, stores exactly the first count bytes in order in the one place `*to`, and leaves the last one there |
| Duff.Copy2 | boost_asio/duff.cpp:37-59 | For any count at all: which bytes are stored in order, and what is left in `*to`; as many as asked exactly if the count is positive or not a multiple of eight, and eight for counts such as 0 and -8 |
| Duff.Round | boost_asio/duff.cpp:39-58 | The eight statements entered at a label store as many bytes as the label says, or none without such a label |
| Duff.CopyEndsIff | boost_asio/duff.cpp:25-34 | The loop of `copy`, turn by turn, ends exactly if the count is positive, and then with that many bytes stored; otherwise every turn stores eight more |

## Left out

- Sockets, resolvers, signals, threads, processes and real files: represented only by completions, byte sequences and a map from paths to contents.
- Boost's coroutine macros, `tribool`, shared-pointer lifetimes and handler memory: resume points, a three-valued datatype and indices into a heap that only grows.
- RequestMachine.Step: version numbers are mathematical integers, so the signed overflow of a version of ten or more digits is not modelled; calls after a definite verdict are not either, since the servers make none.
- Duff.Copy: `count + 7` and the decremented counter do not overflow, and `to` does not point into the bytes copied.
- Duff.Copy2: the same, and reading past the end of `from` for counts such as 0 is excluded by a precondition on its length.
- RequestCoroutine.CoroutineParser.Consume: `lexical_cast` is the parameter `cast`, so which texts beyond decimal numbers it takes (signs, overflow) is not modelled.
- UrlDecode.UrlDecode: `hex` returns the byte that the two characters read as; what the stream extraction makes of pairs such as "0x", "+1" or " 1" is left to the parameter.
- Reply.ToBuffers: buffers are copies of the reply's bytes, so that they stay valid only while the reply lives is not modelled; the copies of a reply in `Lifecycle` and `ForkingServer` show that it does live on.
- ServerCoroutine.Server.ParseThenGoOn: replies are values, since nothing changes one once it is made, and the state of a parser that has reached its verdict is not recorded, since nothing uses it.
- Lifecycle.AliveMeansBusy: the graceful `shutdown` before a close has no effect on the model, and the library's own destruction of handlers when `run` is abandoned is not modelled.
- FileHandler.FileFetched: the connection of client and server by TCP is that the server has received the client's bytes and the client the reply's; keeping the connection open long enough is not modelled.
- HttpClient.ResponseReader.Receive: resolving, connecting and the error texts printed when an operation fails are left out.
- ChatServer.Server.Run: one port; the program's list of servers are independent copies, one room each.
- ChatRoom.TotalOrder: the order in which one broadcast visits the participants, that of their addresses, makes no difference and is not modelled.
- The request parser, reply and request handler of server 2 and the reply and request handler of server 1, `sync_client.cpp` and `url_decode_test.cpp`: they repeat code that is modelled.
- `handler_memory` of `allocation_server.cpp`, timers, the daytime servers, the book examples and the language curiosities: easy members or pure plumbing.
