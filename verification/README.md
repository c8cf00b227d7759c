# QQ-Copy: the chat protocol and its session server, verified

A Dafny model of the C++ core of QQ-Copy: the binary protocol between the Android client and the server, and the
server's state machine of connections, users, messages and accounts. `dafny verify dfyconfig.toml` checks everything.

**The wire.** A packet is a version byte, a 16-bit command, a 32-bit length and a body, all in network byte order.
`ByteOrder` has the integers (with the C++ widths written out), `Grammar` the packets, requests and responses and the
bytes each stands for, and `Parsing` what the decoders of both codecs accept. `ServerCodec` and `ClientCodec` are the
two hand-written codecs as imperative code over a growing buffer, proved against these functions. Where a C++ decoder
would read past its buffer the model has a third outcome, `OverRead`, next to acceptance and rejection, and the lemmas
say exactly for which data it happens.

**The stream.** `Framing` treats the two ways of cutting a byte stream into packets, the client's buffer and the
server's header-then-body reads, and relates them. `Client` is the receiving client with its fields; `Channel` is one
server-to-client connection from `send` to `handle_packet`: posted closures, the write queue, writes that make partial
progress or fail, and `recv` returning any number of bytes. A disabled step changes nothing, so a statement about all
sequences of steps is one about all schedules and all chunkings.

**The server.** One thread runs one `io_context`, so each handler is one step. `Session` is that state machine;
`Agreement`, `Posting`, `Mailbox`, `EndToEnd` and `Accounts` prove properties of all its runs; `Lapses` gives some
in which the natural properties fail. `Server` and `Handlers` are the C++ objects, updated in place by methods with the
branches of the originals. They are tied to the state machine by simulation: if the objects show a state before a
method, they show its successor afterwards. `EventLoop` composes these steps: a server that starts empty and runs
whatever completion handlers become due, in any order, over any number of connections, is in the state of a run
(`EventLoop.ServeAll`), so every theorem about runs holds of the objects. `Answers` says exactly when the sender of a
request is told what, and what has then happened; `Delivery` follows requests from the bytes a client sends to the
callbacks it and others are given. `Config` is the reader of the configuration file and `Pool` the pool of database
handles.

Some things one would expect of this code are false. What is proved about each is the exact condition:

- `user_to_conn_` agrees with the live connections all through a run if and only if every step is `Agreement.Safe`: a
  login comes from a live connection without a user, and a failure does not hit a stopped connection whose user is
  indexed. One login per connection and no act on a stopped connection would ensure this; the code ensures neither. The
  runs in `Lapses` show a second login leaving a stale entry, because of which the first user cannot log in again
  (`Agreement.StaleForever`), and a second `stop` making a user with a live session look offline.
- A session is not always given exactly the messages stored for its user while it was indexed, and stored messages are
  not always accounted for by sessions and unread counters: `Lapses.Misdelivered` is a run that breaks both, and in
  `Lapses.Vanished` a message is lost to both. They hold
  for a session all through a run if and only if every step is `Mailbox.OkOn` that session, and for a user if and only
  if every step is `Mailbox.Accounted` for that user.
- A friend-list request has an empty body, which the server's framer refuses. The client's only way of asking for its
  friends therefore ends the session (`Framing.FriendListEndsSession`).
- Friendship rows stay symmetric unless the second of the two inserts fails, whose result the handler ignores; then
  they do not (`Accounts.FriendsStepExact`, `Lapses.HalfAdded`). They may be duplicated (`Accounts.FriendsRepeat`).
- Strings of 65536 bytes and more do not survive the wire, nor do notifications with 2^32 - 16 bytes of content or
  more: their packets' length field wraps (`Client.CallbackExact`). The decoder alone would manage 8 bytes more
  (`Parsing.NotifyRoundTrip`).

Where the protocol's headers suggest otherwise, the model follows the code: `USER_NOT_FOUND` is the reply to a wrong
password as well, although there is a code `WRONG_PASSWORD`, and the server replies `INVALID_REQUEST`, a code missing
from the client's enumeration (`android/app/src/main/cpp/protocol_codec.hpp:30-43`).

## Model

| member | source | states |
|---|---|---|
| ByteOrder.Read16Exact | server/src/protocol_codec.cpp:34-36 | Two bytes read as `v` if and only if they are what is written for `v`. |
| ByteOrder.Read32Exact | server/src/protocol_codec.cpp:38-43 | Four bytes read as `v` if and only if they are what is written for `v`. |
| ByteOrder.ReadI32Exact | server/src/protocol_codec.cpp:45-47 | The same for signed 32-bit values, negative ones included, through both casts. |
| ByteOrder.ReadI64Exact | server/src/protocol_codec.cpp:22-55 | The same for signed 64-bit values: the two's-complement encoding is a bijection with eight bytes. |
| ByteOrder.SplitBytes | server/src/protocol_codec.cpp:22-26 | What a shift by `w` bytes drops and what the written bytes keep make up the number again, for any sign. |
| ByteOrder.ByteBuffer.WriteUint16 | server/src/protocol_codec.cpp:6-9 | Appends the two-byte encoding. |
| ByteOrder.ByteBuffer.WriteUint32 | server/src/protocol_codec.cpp:11-16 | Appends the four-byte encoding. |
| ByteOrder.ByteBuffer.WriteInt32 | server/src/protocol_codec.cpp:18-20 | Appends the encoding of the two's complement. |
| ByteOrder.ByteBuffer.WriteInt64 | server/src/protocol_codec.cpp:22-26 | The shifting loop appends the eight-byte two's-complement encoding. |
| ByteOrder.ByteBuffer.WriteString | server/src/protocol_codec.cpp:28-32 | Appends the length modulo 2^16 and then the whole string. |
| ByteOrder.ReadInt64 | server/src/protocol_codec.cpp:49-55 | The loop over a wrapping signed accumulator computes the two's-complement value of the eight bytes. |
| Grammar.EncodeFields | server/src/protocol_codec.cpp:61-74 | Where version, command, length and body sit in an encoded packet. |
| Grammar.DecodeExact | server/src/protocol_codec.cpp:61-93 | Decoding yields `p` if and only if the string is the encoding of `p` and its body is shorter than 2^32: the two are mutually inverse. |
| Grammar.EncodePrefixFree | server/src/protocol_codec.cpp:61-93 | One encoding is a prefix of another only if the packets are equal. |
| Parsing.ParseStrsExact | server/src/protocol_codec.cpp:186-217 | `n` length-prefixed strings are read as `ss` if and only if the data starts with the encoding of `ss` and each is shorter than 2^16. |
| Parsing.LoginExact | server/src/protocol_codec.cpp:95-114 | A login request is accepted as these credentials if and only if the data starts with the client's body for them. |
| Parsing.MessageRequestExact | server/src/protocol_codec.cpp:124-135 | The same for a chat message, with the 32-bit sum in the size check. |
| Parsing.RegisterExact | server/src/protocol_codec.cpp:186-217 | The same for a registration. |
| Parsing.SecurityQuestionExact | server/src/protocol_codec.cpp:226-233 | The same for a security-question request. |
| Parsing.ResetPasswordExact | server/src/protocol_codec.cpp:242-266 | The same for a password reset. |
| Parsing.ParseRequestExact | server/src/message_handler.cpp:28-90 | The dispatch accepts `r` if and only if the command is that of `r` and the data starts with the client's body for `r`, all lengths fitting their fields: acceptance is complete, sound and unique. |
| Parsing.RequestRoundTrip | android/app/src/main/cpp/protocol_codec.cpp:89-235 | A request the client encodes is decoded by the server to itself if and only if every string fits its length field. |
| Parsing.RequestOverReadExact | server/src/protocol_codec.cpp:124-135 | The server reads past a buffer if and only if a chat message announces a length within 8 of 2^32 that its data does not have. |
| Parsing.NotifyExact | android/app/src/main/cpp/protocol_codec.cpp:122-134 | For any data and any values: a notification decodes to them if and only if the data starts with the server's encoding of them; from 2^32 - 8 bytes of content on, where the offset of the timestamp wraps, if and only if sender and content are in front and the timestamp's bytes are found where the wrapped offset points. |
| Parsing.ResponseOverReadExact | android/app/src/main/cpp/protocol_codec.cpp:96-214 | The client reads past a buffer if and only if: a login reply of 7 bytes, a security-question reply of 3, or a notification announcing a length within 16 of 2^32 whose content, or whose timestamp where its offset has not wrapped to the front, is not all there. |
| Parsing.EntriesFromExact | android/app/src/main/cpp/protocol_codec.cpp:141-171 | On arbitrary data the friends found are what the data starts with, stay in bounds, and the loop stops only at the count or where no whole entry is left. |
| Parsing.EntriesFromPrefix | android/app/src/main/cpp/protocol_codec.cpp:152-171 | From a prefix of encoded entries exactly the longest run wholly inside it is found. |
| Parsing.FriendListTruncated | server/src/protocol_codec.cpp:167-178 | A friend list cut off anywhere after its header decodes to the longest run of entries inside the cut, and to all of it when nothing is cut. |
| Parsing.FriendListBounded | android/app/src/main/cpp/protocol_codec.cpp:141-171 | Whatever the count field says, at most (size - 6) / 6 friends come out. |
| Parsing.ResponseRoundTrip | android/app/src/main/cpp/protocol_codec.cpp:96-262 | The client decodes a response the server encoded (notifications apart) to itself if and only if it has a decoder for it and its strings, entry count and status fit the format. |
| Parsing.NotifyRoundTrip | android/app/src/main/cpp/protocol_codec.cpp:122-134 | A notification's body decodes to itself exactly below 2^32 - 8 bytes of content, or below 2^32 if the bytes at the wrapped offset happen to be the timestamp's. |
| Parsing.DecodedFits | android/app/src/main/cpp/protocol_codec.cpp:96-262 | Whatever is decoded from any data, the server could have sent under that command. |
| Parsing.LoginRespExact | android/app/src/main/cpp/protocol_codec.cpp:96-112 | Exactly which data decode to a given login reply: status and id in front and then the name, where a name that is missing or cut short is read as empty. |
| Parsing.SecurityQuestionRespExact | android/app/src/main/cpp/protocol_codec.cpp:202-214 | The same for a security-question reply. |
| Parsing.RegisterRespExact | android/app/src/main/cpp/protocol_codec.cpp:189-194 | Exactly the data that start with the status and the id. |
| Parsing.ResetPasswordRespExact | android/app/src/main/cpp/protocol_codec.cpp:225-229 | Exactly the data that start with the status. |
| Parsing.VersionCheckRespExact | android/app/src/main/cpp/protocol_codec.cpp:237-262 | Exactly which data decode to a given version reply, the second string being looked for behind the first, behind its length if only that is there, or in its place. |
| Parsing.FriendListExact | android/app/src/main/cpp/protocol_codec.cpp:141-171 | Exactly which data decode to a given friend list: success, and the longest run of whole entries in front that the count allows. |
| ServerCodec.EncodePacket | server/src/protocol_codec.cpp:61-74 | Builds the packet's bytes in a buffer, step by step. |
| ServerCodec.DecodePacket | server/src/protocol_codec.cpp:76-93 | Accepts exactly the encodings. |
| ServerCodec.DecodeLoginRequest | server/src/protocol_codec.cpp:95-114 | The offset-walking decoder accepts what the grammar says, fast size check included. |
| ServerCodec.DecodeMessageRequest | server/src/protocol_codec.cpp:124-135 | The decoder with its wrapping size check, over-reads told apart. |
| ServerCodec.DecodeRegisterRequest | server/src/protocol_codec.cpp:186-217 | Four fields; the initial check for six bytes rejects nothing that could be accepted. |
| ServerCodec.DecodeSecurityQuestionRequest | server/src/protocol_codec.cpp:226-233 | One field. |
| ServerCodec.DecodeResetPasswordRequest | server/src/protocol_codec.cpp:242-266 | Three fields. |
| ServerCodec.DecodeVersionCheckRequest | server/src/protocol_codec.cpp:274-278 | A version number, trailing bytes ignored. |
| ServerCodec.EncodeLoginResponse | server/src/protocol_codec.cpp:116-122 | The body the client's decoder is proved to understand. |
| ServerCodec.EncodeStatusAndId | server/src/protocol_codec.cpp:137-142 | Message and register replies have the same layout, a status and an id. |
| ServerCodec.EncodeStatus | server/src/protocol_codec.cpp:180-184 | Add-friend and reset-password replies are a status. |
| ServerCodec.EncodeMessageNotify | server/src/protocol_codec.cpp:144-151 | The notification that `NotifyExact` inverts, through the 64-bit loop. |
| ServerCodec.EncodeFriendListResponse | server/src/protocol_codec.cpp:167-178 | The appending loop writes the entries in order. |
| ServerCodec.EncodeSecurityQuestionResponse | server/src/protocol_codec.cpp:235-240 | A status and the question. |
| ServerCodec.EncodeVersionCheckResponse | server/src/protocol_codec.cpp:280-287 | A status, a version and two strings. |
| ClientCodec.EncodeCommand | android/app/src/main/cpp/protocol_codec.cpp:54-67 | Byte for byte what the server's encoder writes at version 1. |
| ClientCodec.DecodeCommand | android/app/src/main/cpp/protocol_codec.cpp:69-87 | Accepts what the server's decoder accepts, without the version. |
| ClientCodec.EncodeLoginRequest | android/app/src/main/cpp/protocol_codec.cpp:89-94 | A whole packet that the server decodes back. |
| ClientCodec.EncodeMessageRequest | android/app/src/main/cpp/protocol_codec.cpp:114-120 | The same for a message. |
| ClientCodec.EncodeFriendListRequest | android/app/src/main/cpp/protocol_codec.cpp:136-139 | A packet with an empty body. |
| ClientCodec.EncodeAddFriendRequest | android/app/src/main/cpp/protocol_codec.cpp:173-177 | The same for an add-friend request. |
| ClientCodec.EncodeRegisterRequest | android/app/src/main/cpp/protocol_codec.cpp:179-187 | The same for a registration. |
| ClientCodec.EncodeSecurityQuestionRequest | android/app/src/main/cpp/protocol_codec.cpp:196-200 | The same for a security-question request. |
| ClientCodec.EncodeResetPasswordRequest | android/app/src/main/cpp/protocol_codec.cpp:216-223 | The same for a password reset. |
| ClientCodec.EncodeVersionCheckRequest | android/app/src/main/cpp/protocol_codec.cpp:231-235 | The same for a version check. |
| ClientCodec.DecodeLoginResponse | android/app/src/main/cpp/protocol_codec.cpp:96-112 | The decoder that tests for one byte and reads two, the over-read told apart; a name that is cut off reads as empty. |
| ClientCodec.DecodeMessageNotify | android/app/src/main/cpp/protocol_codec.cpp:122-134 | The decoder with wrapping sums for the bound and the timestamp's offset. |
| ClientCodec.DecodeFriendListResponse | android/app/src/main/cpp/protocol_codec.cpp:141-171 | The loop with its three exits collects exactly the whole entries in front. |
| ClientCodec.DecodeRegisterResponse | android/app/src/main/cpp/protocol_codec.cpp:189-194 | A status and an id. |
| ClientCodec.DecodeSecurityQuestionResponse | android/app/src/main/cpp/protocol_codec.cpp:202-214 | As for a login reply, with the over-read at three bytes. |
| ClientCodec.DecodeResetPasswordResponse | android/app/src/main/cpp/protocol_codec.cpp:225-229 | A status. |
| ClientCodec.DecodeVersionCheckResponse | android/app/src/main/cpp/protocol_codec.cpp:237-262 | Two optional strings; the offset passes a length field even when the text behind it is not all there. |
| Framing.FrameIsPacket | android/app/src/main/cpp/chat_client.cpp:96-126 | A string is a whole frame if and only if `decode` accepts it, so decoding never fails on an extracted packet. |
| Framing.DrainExact | android/app/src/main/cpp/chat_client.cpp:96-111 | Draining finds the one way to split a buffer into whole frames and a rest without a whole frame. |
| Framing.ChunkIndependence | android/app/src/main/cpp/chat_client.cpp:88-112 | Draining before and after more bytes arrive gives what draining everything at once gives. |
| Framing.ChunkingIrrelevant | android/app/src/main/cpp/chat_client.cpp:86-112 | For every chunking of a stream, frames and leftover are those of the whole stream. |
| Framing.PrefixFrames | android/app/src/main/cpp/chat_client.cpp:96-111 | From a stream of frames cut off anywhere, exactly the frames wholly before the cut come out. |
| Framing.ConcatenationUnique | server/src/protocol_codec.cpp:61-93 | Two sequences of packets with the same concatenated bytes are the same sequence. |
| Framing.ServeExact | server/src/connection_manager.cpp:128-168 | The server's reads dispatch `ps` and keep `rest` if and only if the stream is the encodings of `ps`, all bodies in range, followed by `rest`, and `rest` is too short or starts with a refused header. |
| Framing.FramersAgree | server/src/connection_manager.cpp:128-168 | On any stream the server dispatches the client framer's frames up to the first out of range; all of them, with the same rest, when there is none. |
| Framing.DispatchedPacket | server/src/connection_manager.cpp:150-161 | Each dispatched packet is `decode` of its own bytes. |
| Framing.RequestsReachServer | server/src/connection_manager.cpp:138-161 | Any requests sent back to back are dispatched, byte for byte, up to the first body that is empty or too long; each decodes to itself if and only if its strings fit; and nothing more is dispatched, the server refusing there, if and only if that body's length modulo 2^32 is out of range too. |
| Framing.FriendListEndsSession | android/app/src/main/cpp/protocol_codec.cpp:136-139 | Of requests sent back to back none from the first friend-list request on is served: the server has refused by then (provided an earlier body of 4 GiB or more has not put it out of step, `RefusalReadable`). |
| Client.CallbackOfResponse | android/app/src/main/cpp/chat_client.cpp:120-206 | A response as the server sends it reaches its callback unchanged; replies to messages and add-friend requests reach none. |
| Client.CallbackExact | android/app/src/main/cpp/chat_client.cpp:120-206 | A whole packet reaches its callback unchanged if and only if the client has a case for it, its fields are in bounds and its body is shorter than 2^32. |
| Client.LiveExact | android/app/src/main/cpp/chat_client.cpp:88-92 | The loop takes the chunks up to the first empty `recv`, or all of them. |
| Client.ChatClient.HandlePacket | android/app/src/main/cpp/chat_client.cpp:120-206 | The dispatch makes the callback of the packet, if any. |
| Client.ChatClient.DrainBuffer | android/app/src/main/cpp/chat_client.cpp:96-111 | The inner loop handles exactly the frames of the buffer, in order, and keeps the rest. |
| Client.ChatClient.ReadLoop | android/app/src/main/cpp/chat_client.cpp:86-118 | For all results of `recv`: callbacks and leftover are those of the concatenated stream up to the end. |
| Channel.QueueStep | server/src/connection_manager.cpp:105-183 | Every step keeps: at most one write, of the queue's front; before an error one is outstanding exactly when the queue is not empty; written, queued and posted make up all that was sent, in order. |
| Channel.WireStep | server/src/connection_manager.cpp:170-183 | The wire holds the finished buffers and a part of the current one, and only grows. |
| Channel.ReceiveStep | android/app/src/main/cpp/chat_client.cpp:86-112 | The client has handled the frames of exactly the bytes it has taken. |
| Channel.InvRun | server/src/connection_manager.cpp:105-183 | The three hold in every state of every schedule. |
| Channel.RunPostedExact | server/src/connection_manager.cpp:105-113 | Running a closure moves exactly its buffer to the back of the queue; without a failure the front of the queue is then being written. |
| Channel.WriteDoneExact | server/src/connection_manager.cpp:170-178 | A completed write moves exactly the front buffer from the queue to the written ones and starts the next one from its first byte. |
| Channel.WriteErrorExact | server/src/connection_manager.cpp:179-181 | A failed write ends, and every buffer stays where it is. |
| Channel.BytesExact | server/src/connection_manager.cpp:170-172 | The next bytes of the front buffer go on the wire, and the next bytes of the wire to the client. |
| Channel.ErrorIsFinal | server/src/connection_manager.cpp:179-181 | After a write error no later step starts a write or puts a byte on the wire. |
| Channel.WirePrefix | server/src/connection_manager.cpp:105-183 | The bytes on the wire are a prefix of the posted packets, and all of them when the queues are empty. |
| Channel.Fifo | server/src/connection_manager.cpp:105-183 | In any invariant state the handled packets are a prefix of the posted ones: those whose bytes have all arrived, and all once everything is written and read. |
| Channel.FifoOverRuns | android/app/src/main/cpp/chat_client.cpp:86-112 | The same for all schedules and chunkings, for packets and for callbacks. |
| Channel.Finish | server/src/connection_manager.cpp:105-183 | From every state without a failure, finitely many steps of executor, socket and client bring everything posted to the client. |
| Session.LoginFacts | server/src/message_handler.cpp:92-123 | Only a verified user who is not in the index gets bound, and nothing else happens then. |
| Session.ChatFacts | server/src/message_handler.cpp:125-171 | Either no message is stored, nobody notified and nothing counted, or one message from the connection's user is, and its addressee is notified when in the index and counted when not. |
| Session.ReplyCommand | server/src/message_handler.cpp:368-377 | Every reply has the request's command plus one. |
| Session.TablesStep | server/src/message_handler.cpp:240-340 | User ids stay positive and unique, and stored questions fit their length field. |
| Session.RequestStep | server/src/message_handler.cpp:28-90 | A packet that does not decode, or with an unknown command, changes nothing. |
| Agreement.LoginByExact | server/src/message_handler.cpp:92-123 | A request signs its connection in exactly when the tables accept name and password, the query goes through and the user is not indexed. |
| Agreement.StepAgreementExact | server/src/connection_manager.cpp:16-67 | From a state in which the index agrees with the live connections, a step keeps agreement if and only if it is safe, a condition on the state before it. |
| Agreement.AgreementOverRuns | server/src/connection_manager.cpp:16-67 | The index is the map from user to connection over the live connections in every state of a run if and only if every step of the run was safe. |
| Agreement.RegularRunIsSafe | server/src/message_handler.cpp:92-123 | One login per connection and no act on a connection after its first stop make every step safe. |
| Agreement.AgreementMeans | server/src/connection_manager.cpp:37-57 | No user has two live sessions, and a user counts as online if and only if `send_to_user` succeeds, on a connection of that user. |
| Agreement.WeakStepExact | server/src/connection_manager.cpp:21-29 | With second logins allowed: a step keeps every live connection's current user indexed to it if and only if it is not a failure on a stopped connection whose user has a live session elsewhere. |
| Agreement.WeakOverRuns | server/src/message_handler.cpp:104-113 | This weak agreement holds in every state of a run, `stop_all` included, if and only if no such failure occurs. |
| Agreement.SecondLoginLeavesStale | server/src/message_handler.cpp:104-113 | A login on a connection that has a user leaves that user's entry naming somebody else's connection. |
| Agreement.StaleStepExact | server/src/connection_manager.cpp:21-62 | A step ends a stale entry if and only if it is `stop_all` or a failure on a connection of that user; otherwise it does not move and its user does not log in. |
| Agreement.StaleForever | server/src/message_handler.cpp:104-110 | A stale entry lasts through a run if and only if nothing ends it, and then the right password is answered with `USER_ALREADY_ONLINE`. |
| Agreement.OrderlyKeeps | server/src/connection_manager.cpp:21-35 | When nothing acts on a stopped connection, only `stop_all` ends a stale entry, and the weak agreement is safe. |
| Lapses.SecondLogin | server/src/message_handler.cpp:104-113 | A run with two logins after which the index disagrees and the first user is locked out. |
| Lapses.Misdelivered | server/src/message_handler.cpp:104-162 | The same run and one message more: it reaches a session it was not stored for, and is neither on a session of its addressee nor unread. |
| Lapses.Vanished | server/src/connection_manager.cpp:37-48 | A run in which the stale entry names a stopped connection: a message is stored for a user who counts as online, and is given to nobody nor counted. |
| Lapses.DoubleStop | server/src/connection_manager.cpp:21-29 | A run with a write failure, a new login and a late read failure after which a live session's user is in no index: agreement fails, the weak one too. |
| Lapses.HalfAdded | server/src/message_handler.cpp:226-233 | A run from symmetric rows with a login and an add-friend whose second insert fails, after which they are not symmetric. |
| Posting.PostedStep | server/src/message_handler.cpp:146-170 | What a step posts to every connection: a notification to the addressee's, then the reply. |
| Posting.ReplyOrder | server/src/message_handler.cpp:28-377 | Over every run, a connection's packets other than notifications are, byte for byte, one for one and in order, the encoded replies decided for its served requests in the states in which they were served. |
| Posting.OwedCode | server/src/message_handler.cpp:368-377 | Each of them carries the request's command code plus one. |
| Mailbox.MailOfStep | server/src/message_handler.cpp:146-165 | The client would find in a step's packets exactly the stored message, on the connection the index names. |
| Mailbox.TablesOfStep | server/src/message_handler.cpp:125-144 | A step stores at most one message, from the acting connection's nonzero user. |
| Mailbox.UnreadOfStep | server/src/cache_manager.cpp:167-179 | A counter grows by one exactly when a message for an offline user is stored and the cache works. |
| Mailbox.StoresExact | server/src/message_handler.cpp:125-171 | The handlers store a message exactly when a user on the connection asks for it, both users exist and the statement goes through, and then notify or count. |
| Mailbox.SegmentStepExact | server/src/message_handler.cpp:125-171 | A step keeps a session's mail equal to what was stored for its user while the index named it if and only if a message stored in it goes to that session exactly when it should, and a login on it finds no earlier mail. |
| Mailbox.SegmentsOverRuns | server/src/message_handler.cpp:125-171 | That equality holds in every state of a run, from login to the moment the index last named the session, if and only if every step is right for that one session. |
| Mailbox.SafeRunIsOk | server/src/message_handler.cpp:125-171 | Steps that keep the index in agreement are right for every session. |
| Mailbox.ConservedStepExact | server/src/message_handler.cpp:137-165 | A step keeps, for one user, messages stored = notifications posted to that user's sessions + unread counter, if and only if a message stored in it is given or counted exactly when it is for that user, and a login moves no mail between that user and another. |
| Mailbox.ConservationOverRuns | server/src/message_handler.cpp:137-165 | The equation holds for a user in every state of a run if and only if every step of it satisfies that condition. |
| Mailbox.Conservation | server/src/message_handler.cpp:137-165 | Safe steps and a working cache satisfy it for all users. |
| EndToEnd.ChannelsOverRuns | server/src/connection_manager.cpp:105-183 | The channel invariant holds of every connection in every run of the server. |
| EndToEnd.FramesOverRuns | server/src/message_handler.cpp:368-377 | Everything the server ever posts is a well-formed frame. |
| EndToEnd.EveryChannelIsFifo | server/src/connection_manager.cpp:105-183 | In every run, whatever peers send, each client handles a prefix of what was posted to it, and all of it once nothing is on its way. |
| EndToEnd.MailboxRefinement | server/src/message_handler.cpp:125-171 | What a session's message callback has been given is an initial part, in store order, of the messages stored for its user while the index named the session, and exactly these once nothing is on its way; for every run that is right for this session, whatever happens to others. |
| EndToEnd.EverythingArrives | server/src/connection_manager.cpp:105-183 | After every run of the server, on every connection without a write failure, finitely many steps of its channel alone bring everything posted so far to the client. |
| EndToEnd.MailArrives | server/src/message_handler.cpp:125-171 | The message callback has then been given all the messages stored for the session's user while the index named it. |
| EndToEnd.ChannelOfStep | server/src/connection_manager.cpp:105-183 | What a step of the server does to each channel is a number of steps of that channel, a failed write being one. |
| EndToEnd.WriteFailExact | server/src/connection_manager.cpp:179-181 | A failed write stops the connection, keeps its queue and leaves no write outstanding. |
| EndToEnd.FailedForGood | server/src/connection_manager.cpp:105-183 | From then on, whatever the server does, nothing more is put on that connection's wire. |
| Accounts.HashOfStep | server/src/message_handler.cpp:240-340 | A stored hash changes exactly when the reply says success, to the hash of the password in that request. |
| Accounts.PasswordsFollowReplies | server/src/database_pool.cpp:67-153 | Over every run, database faults included, a password verifies if and only if its hash is that of the last password set by a successful register or reset. |
| Answers.LoginAnswered | server/src/message_handler.cpp:92-123 | A login's callback gets success with the user's id and name exactly when the connection is signed in as that user, `USER_ALREADY_ONLINE` exactly when name and password are right and the user is indexed, `USER_NOT_FOUND` exactly when they are not right, both with id 0 and no name. |
| Answers.RegisterAnswered | server/src/message_handler.cpp:240-275 | Each code exactly under its condition; success, with the generated key, exactly when there is then one account more with the hashes of password and answer, and no change otherwise. |
| Answers.ResetAnswered | server/src/message_handler.cpp:303-340 | Each code exactly under its condition; success exactly when no field is empty, both statements go through, the account exists and the answer has the stored hash, and only then the password hash changes. |
| Answers.QuestionAnswered | server/src/message_handler.cpp:277-301 | The stored question exactly when the account is found, each refusal exactly under its condition. |
| Answers.AddFriendAnswered | server/src/message_handler.cpp:201-238 | The packet owed carries each code exactly under its condition; the rows added are exactly one in each direction, or one when the second insert fails. |
| Answers.MessageAnswered | server/src/message_handler.cpp:125-171 | Success with the message's key exactly when the message is stored, `PROTOCOL_ERROR` exactly without a user, `DATABASE_ERROR` otherwise. |
| Answers.FriendListAnswered | server/src/message_handler.cpp:173-199 | The rows of the query to a connection with a user; a refusal, of which the client's decoder tells nothing, otherwise. |
| Answers.VersionAnswered | server/src/message_handler.cpp:342-353 | Version 2, the address and the notice, always. |
| Answers.PostedExact | server/src/message_handler.cpp:146-170 | A step posts to each connection the notification of a stored message, time included, if its addressee is reached there, and then the answer if it is the sender's; nothing else. |
| Answers.SecretsFollowRegistrations | server/src/message_handler.cpp:259-274 | Over every run, the stored question and answer hash of a name are those of the registration for it that was told success, or the initial ones. |
| Answers.ResetNeedsAnswer | server/src/message_handler.cpp:313-336 | Over every run, a reset succeeds exactly when no field is empty, the statements go through, and the answer has the hash of the one given at registration. |
| Answers.QuestionIsRegistered | server/src/message_handler.cpp:277-301 | Over every run, the question told is the one given at registration. |
| Accounts.UsersLoggedIn | server/src/message_handler.cpp:92-123 | A connection has a user only through a successful login on it earlier in the run. |
| Accounts.SendersLoggedIn | server/src/message_handler.cpp:125-142 | Every message stored in a run was sent over a connection on which its sender had logged in before. |
| Accounts.FriendsStepExact | server/src/message_handler.cpp:201-238 | A step keeps the friendship rows symmetric in counts if and only if it is not an add-friend whose second insert fails; nobody becomes their own friend. |
| Accounts.FriendsOverRuns | server/src/message_handler.cpp:201-238 | The rows stay symmetric all through a run if and only if no such step occurs, and irreflexive in any case. |
| Accounts.FriendsFromSeed | sql/init.sql:48-52 | In particular from the seeded rows. |
| Accounts.FriendsRepeat | sql/init.sql:18-28 | Without a unique key, adding a friend again adds both rows again. |
| Server.Connection.RunPosted | server/src/connection_manager.cpp:107-113 | The closure enqueues and starts a write when none is in progress, as the channel model has it. |
| Server.Connection.OnWritten | server/src/connection_manager.cpp:170-178 | A completed write is popped and the next one started, as the channel model has it. |
| Server.Connection.Transmit | server/src/connection_manager.cpp:170-172 | A write makes progress, as the channel model has it. |
| Server.ConnectionManager.Stop | server/src/connection_manager.cpp:21-29 | Erases the entry of the connection's user, whatever it names, and the connection. |
| Server.ConnectionManager.SendToUser | server/src/connection_manager.cpp:37-52 | True if and only if the user is indexed to a known connection, to which alone the data is posted. |
| Server.Database.VerifyUser | server/src/database_pool.cpp:67-153 | The id of the account if the statement goes through and the hashes are equal. |
| Server.Database.SendMessage | server/src/database_pool.cpp:581-619 | One row more, or a failure and no change. |
| Server.Database.AddFriend | server/src/database_pool.cpp:751-782 | One row more, or a failure and no change; a duplicate is no failure. |
| Server.Database.RegisterUser | server/src/database_pool.cpp:155-201 | A new account under a unique name, or a failure and no change. |
| Server.Database.ResetPassword | server/src/database_pool.cpp:309-342 | Only the hash of one account changes; updating an unknown name changes nothing and is no failure. |
| Server.Cache.IncrementUnread | server/src/cache_manager.cpp:167-179 | One counter grows by one, or nothing changes. |
| Handlers.MessageHandler.Accept | server/src/connection_manager.cpp:83-99 | A new connection without a user, with a new id, is a step of the state machine. |
| Handlers.MessageHandler.HandleLogin | server/src/message_handler.cpp:92-123 | The objects go where the state machine goes. |
| Handlers.MessageHandler.HandleChatMessage | server/src/message_handler.cpp:125-171 | The same, across tables, the addressee's connection, the counter and the reply. |
| Handlers.MessageHandler.Deliver | server/src/message_handler.cpp:146-165 | A stored message is pushed to exactly one connection, counted, or (cache failure or dangling entry) neither. |
| Handlers.MessageHandler.HandleFriendList | server/src/message_handler.cpp:173-199 | The objects go where the state machine goes. |
| Handlers.MessageHandler.HandleAddFriend | server/src/message_handler.cpp:201-238 | The same, for two inserts of which the second one's result is ignored. |
| Handlers.MessageHandler.AddBothWays | server/src/message_handler.cpp:226-233 | Both rows, one, or none, and the answer only tells about the first. |
| Handlers.MessageHandler.HandleRegister | server/src/message_handler.cpp:240-275 | The same for a registration. |
| Handlers.MessageHandler.HandleSecurityQuestion | server/src/message_handler.cpp:277-301 | The same for a security question. |
| Handlers.MessageHandler.HandleResetPassword | server/src/message_handler.cpp:303-340 | The same for a password reset. |
| Handlers.MessageHandler.HandleVersionCheck | server/src/message_handler.cpp:344-353 | The same for a version check, with the fixed version, address and notice. |
| Handlers.MessageHandler.SendResponse | server/src/message_handler.cpp:368-377 | The framed reply is posted to this connection. |
| Handlers.MessageHandler.HandleMessage | server/src/message_handler.cpp:28-90 | Decoding by command and calling the handler is one step of the state machine, for every packet. |
| Handlers.MessageHandler.OnHeaderRead | server/src/connection_manager.cpp:128-148 | The header is kept and a body of its length is asked for exactly when that is in range; no other connection is touched. |
| Handlers.MessageHandler.OnBodyRead | server/src/connection_manager.cpp:150-163 | The packet handled consists of the kept header's fields and the body; of other connections only the posted closures change, so read chains interleave. |
| Handlers.MessageHandler.OnReadEnd | server/src/connection_manager.cpp:141-146 | The end of the read chain stops the connection. |
| Handlers.MessageHandler.OnWriteError | server/src/connection_manager.cpp:179-181 | A failed write stops the connection and leaves its buffer queued. |
| Handlers.MessageHandler.OnPosted | server/src/connection_manager.cpp:107-113 | Running a posted closure is a step of the state machine on this connection alone. |
| Handlers.MessageHandler.OnWritten | server/src/connection_manager.cpp:170-178 | So is the completion of a write. |
| Handlers.MessageHandler.OnTransmit | server/src/connection_manager.cpp:170-172 | So is its progress. |
| Handlers.MessageHandler.IdleShown | server/src/connection_manager.cpp:105-183 | Steps that are not due, or are the client's, leave the objects as they are. |
| Handlers.MessageHandler.StopAll | server/src/connection_manager.cpp:31-35 | Both maps are emptied and nothing else changes. |
| Handlers.MessageHandler.ServeStream | server/src/connection_manager.cpp:128-168 | For every byte stream, the read chain takes the objects through exactly the run of packets `ServeExact` describes, followed by a stop. |
| EventLoop.YetStep | server/src/connection_manager.cpp:128-168 | One completed or failed read dispatches the next packet of its stream, or none. |
| EventLoop.ReadsOverTurns | server/src/connection_manager.cpp:128-168 | However the read chains of all connections interleave with each other and with writes, failures and stops: on each, the packets dispatched are an initial part, in order, of those its own stream holds, and all of them once its chain has ended. |
| EventLoop.LoopIsRun | server/src/chat_server.cpp:22-24 | Any sequence of turns takes the server through a run of the state machine. |
| EventLoop.EventLoop.ReadHeader | server/src/connection_manager.cpp:128-148 | A turn of a read chain that waits for a header, on the objects. |
| EventLoop.EventLoop.ReadBody | server/src/connection_manager.cpp:150-168 | A turn of a read chain that waits for a body of the size of the body buffer, with the header kept since an earlier turn. |
| EventLoop.EventLoop.TurnWriting | server/src/connection_manager.cpp:105-183 | A turn of a write queue. |
| EventLoop.EventLoop.TakeTurn | server/src/chat_server.cpp:22-24 | Any turn on the objects is the turn of the model. |
| EventLoop.ServeAll | server/src/chat_server.cpp:22-24 | From an empty server, any sequence of turns leaves the objects in the state that the run of the state machine reaches. |
| Delivery.RepliesArrive | server/src/message_handler.cpp:368-377 | In every run, the callbacks a client is given, other than of messages, are an initial part, in order, of those of the replies to its served requests, and all of them once nothing is on its way. |
| Delivery.StoredInOrder | server/src/message_handler.cpp:137-170 | In every run, the messages stored over a connection are, in order, those its client asked to be sent and was answered success for, and nothing else is added to the store. |
| Delivery.SentInOrder | server/src/message_handler.cpp:125-171 | The server at work, for any order of turns: the messages a connection's stream asks to be sent are attempted in the order they stand in it, all of them once it is read, and those answered with success are stored in that order. |
| Delivery.OneAnswerEach | server/src/message_handler.cpp:28-90 | The server at work, for any order of turns: the replies owed to a connection answer, one for one and in order, the requests its stream holds, all of them once it is read. |
| Delivery.EverythingIsAnswered | server/src/connection_manager.cpp:105-183 | After any turns, as long as no write to a connection has failed, finitely many more turns of its own suffice: its stream is read, every packet in it dispatched, and every reply has reached the client's callbacks. |
| Delivery.StreamOfRequests | android/app/src/main/cpp/protocol_codec.cpp:114-120 | What the stream of a client's encoded requests asks to be sent is the messages among the requests before the first whose body is out of range. |
| Config.TrimPadded | server/src/main.cpp:31-36 | Trimming removes any padding around a trimmed text and nothing else. |
| Config.TrimSound | server/src/main.cpp:31-36 | What trimming removes is blank, and the result has no blank at either end. |
| Config.LinesExact | server/src/main.cpp:60 | A text is read as exactly the one sequence of lines that spells it, the last line terminated or not. |
| Config.ReadLineExact | server/src/main.cpp:61-72 | Exactly what any line says: a section, a setting parted at its first `=`, or nothing. |
| Config.GetConfigValue | server/src/main.cpp:50-81 | The loop returns the first match in the list of (section, key, value) entries of the file, or the empty string. |
| Config.ReadsBack | server/src/main.cpp:58-79 | Every line printed from a comment, heading or assignment, with any padding, is read as what it means. |
| Config.ConfigRoundTrip | server/src/main.cpp:50-81 | A printed configuration reads back as the settings it states, reopened sections included. |
| Config.PrintedReadsBack | server/src/main.cpp:50-81 | The same when the last line lacks its terminator. |
| Config.LookUpRecovered | server/src/main.cpp:50-81 | Looking up a key in a printed file, its last line terminated or not, finds the value of the first assignment of it under a heading of that name. |
| Config.LookUpMissing | server/src/main.cpp:50-81 | Looking up what is not assigned finds the empty string. |
| Pool.HandlesStep | server/src/database_pool.cpp:48-65 | Every step keeps idle handles distinct, open and disjoint from leased ones, and idle + leased + lost = initially created. |
| Pool.WakeupStep | server/src/database_pool.cpp:48-65 | While a thread sleeps, every idle handle has a notified thread coming for it. |
| Pool.PoolOverRuns | server/src/database_pool.cpp:11-65 | Both hold over all interleavings from the constructor on; idle + leased never exceed the pool size, and a thread waits in vain only if every handle is leased or lost. |
| Pool.SuccessesExact | server/src/database_pool.cpp:14-19 | The initial number of handles is the number of attempts that succeeded. |
| Pool.TakeFrontExact | server/src/database_pool.cpp:52-58 | The front handle is leased if alive; if not it is closed and replaced by a new one, or by nothing when reconnecting fails. |
| Pool.QueueOrder | server/src/database_pool.cpp:48-65 | Over all interleavings, handles are handed out in the order in which they came back. |
| Pool.ClosedForGood | server/src/database_pool.cpp:55-58 | A closed handle is never idle or leased again. |
| Pool.ThreadsStep | server/src/database_pool.cpp:48-65 | Threads start waiting only on an empty queue, leave only with what they wait for, and a return wakes one. |
| Pool.EverybodyServed | server/src/database_pool.cpp:48-65 | From every reachable state with a handle left, finitely many returns and takes serve every waiting thread. |
| Pool.DatabasePool.constructor | server/src/database_pool.cpp:11-20 | The loop keeps exactly the handles that could be opened. |
| Pool.DatabasePool.GetConnection | server/src/database_pool.cpp:48-65 | Leases the front handle, its replacement when the ping fails, or nothing when reconnecting fails as well. |
| Pool.DatabasePool.Return | server/src/database_pool.cpp:60-64 | The deleter puts the handle at the back. |

## Left out

- EndToEnd.MailboxRefinement: is about friend lists below 2^32 - 6 encoded bytes, since beyond that a packet's length field wraps; the steps it is about are those without which it fails on the server's side already (`Mailbox.SegmentsOverRuns`).
- Framing.FriendListEndsSession: is about requests whose first body out of range is out of range modulo 2^32 as well; after another one the server reads headers out of the middle of a body, and nothing is said about what it finds.
- ClientCodec.DecodeVersionCheckResponse: proved to do what the code does on all data, and to invert the encoder on whole buffers; on cut buffers the description may be read from the bytes of the address, so nothing nicer is claimed.
- Pool.EverybodyServed: says that the waiting threads can be served, by steps that exist; that they will be depends on fairness, as does the arrival of what is posted (`Delivery.EverythingIsAnswered`).
- `OverRead` is undefined behaviour in C++. The state machine goes on as if the packet had been rejected, so theorems about runs say nothing about real runs that contain one. A request written by the client's encoders whose strings fit their length fields is none (`Parsing.RequestRoundTrip`).
- The signed left shift in `read_int64` is taken to wrap, and `size_t` to have 64 bits.
- Connection ids are random 64-bit strings; the model numbers the connections, so collisions do not occur.
- Nothing shown calls `Connection::start`. The model starts its read chain when a connection is accepted.
- Which database and cache calls go through, generated keys, the rows of a friend query and the clock come from the environment of each step. SQL text, collation, column widths and transactions are not modelled; SHA-256 is an arbitrary function.
- A statement that fails is taken to have changed nothing.
- The cache's online flag and connection id, friend-list caching and unread decrements: written by the server but not read by any handler.
- Sockets, threads, `connect` and `disconnect` of the client, and bytes left in `read_buffer_` by an earlier connection. `ReadLoop` holds for any leftover without a whole frame.
- The client's callbacks are assumed to be registered.
- Operations no handler uses: `decode_message_notify` of the server, `get_messages`, `delete_friend`, `add_user`, `update_password`, `get_user_by_name`, `remove_user_connection`, `get_connection_count`.
- Logging, signal handling, `safe_stoi`, the destructors, the Android user interface, the JNI layer, and the build and install scripts.
