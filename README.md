# A verified model of a two-protocol chat server

The system is a TCP chat server. Clients register and log in, then:

- broadcast chat lines, send direct messages (DMs) and fetch unread mail or a two-person history;
- mark mail as read, delete messages and delete their account.

Every exchange uses one of two wire protocols, chosen when the server is built:

- **JSON:** one document per line, newline-delimited.
- **Custom binary:** a 1-byte type tag, a 4-byte big-endian payload length, then the payload. The frame extractor resynchronises on garbage.

The message store is a SQLite database with a `users` table and a `messages` table. A separate account manager keeps its own active-connection registry.

The Dafny project models five parts of the system:

- **`octets.dfy`, `wirebase.dfy`, `wrappers.dfy`:** bytes, big-endian integers, decimal text, `{}` templates, the codec error type and `Option`/`Result`.
- **`schemas.dfy`:** the message schema: `MessageType` (12 values, in declaration order), `Status`, the `SystemMessage` texts, `ChatMessage` with its defaults and `__str__`, and `ServerResponse`.
- **Protocol:**
  - **`jsonwire.dfy`:** the JSON protocol's newline framing and its content-size check. The JSON body itself is an opaque `dump`/`load` pair.
  - **`wire.dfy`:** the custom binary protocol. It has the tag tables, the string and list codecs, the message and response codecs (each as a specification function plus the loop method proved equal to it), and the resynchronising frame extractor.
  - **`protocols.dfy`:** `ProtocolFactory.create` and the dispatch over the two protocols.
- **Database:**
  - **`tables.dfy`:** each SQL statement as a function on a snapshot of the two tables. A `WHERE` clause is a datatype whose meaning is proved.
  - **`database.dfy`:** the `Database` class, whose methods update the tables in place and are proved equal to those functions.
- **`auth.dfy`:** the `AuthManager` class and its insertion-ordered active-connection registry.
- **Server:**
  - **`routing.dfy`:** username validation, recipient and broadcast routing, send logs, and delete-notice bookkeeping.
  - **`chat.dfy`:** the server's world (registry maps, buffers, the database snapshot, an outbox of sent responses and a queue of sockets scheduled for removal), with the handlers for DMs, fetches, mark-read and delete as functions on it.
  - **`sessions.dfy`:** `handle_client` as a step function per received frame. It covers register, login, the authenticated dispatch, account deletion, the frame-draining loop and the final `remove_client`.
  - **`server.dfy`:** the `ChatServer` class, whose fields the methods update in place. Every method is proved to end in the state the matching step function computes and to keep the registry invariant.

Sockets are identifiers, and "send" appends a `Delivery` to an outbox. A send fails exactly when the socket is in the `down` set or the response cannot be encoded. The binary response encoder refuses only a length that overflows one of its 4-byte fields: it has no frame-size limit, so a response larger than the receiver's 1,000,000-byte payload limit is still sent (Routing.PushAtLimitDropped). The server swallows that failure, as the source does, and a failed broadcast schedules the socket for removal. The model records this in the `pending` queue, which `Reap` empties later.

## Model

| member | source | states |
|---|---|---|
| Octets.U32RoundTrip | protocol.py:460-463 | a number below 2^32 written as 4 big-endian bytes reads back as itself |
| Octets.NatDigitsRoundTrip | schemas.py:162 | the decimal text of a natural number is all digits and reads back as the number |
| Octets.IntTextRoundTrip | schemas.py:162 | the decimal text of an integer starts with '-' iff it is negative, and its digits read back as its absolute value |
| Octets.FormatOnePlaceholder | schemas.py:114-117 | `str.format` on a template with one `{}` and no other brace puts the argument in the place of the braces |
| Schemas.AllTypesEnumerates | schemas.py:42-56 | the type list has exactly 12 distinct entries and contains every `MessageType` |
| Schemas.UserJoinedFormat | schemas.py:114 | USER_JOINED formatted with u is u + " has joined the chat" |
| Schemas.UserLoggedOutFormat | schemas.py:115 | USER_LOGGED_OUT formatted with u is u + " has logged out" |
| Schemas.AccountDeletedFormat | schemas.py:101 | ACCOUNT_DELETED formatted with u is u + " has deleted their account" |
| Schemas.UnreadMessagesFormat | schemas.py:117 | UNREAD_MESSAGES formatted with n is "You have " + n + " unread messages" |
| Schemas.NewMessage | schemas.py:141-153 | a message built from a username and content has type CHAT and every optional field empty |
| Schemas.ShowLayout | schemas.py:155-165 | `__str__` starts with "[id] " when an id is present and is the body alone otherwise; a DM with recipients shows "DM to r0: content", any other message shows its content |
| Schemas.ShowIdReadsBack | schemas.py:155-165 | the bracketed id in `__str__` contains no closing bracket and its digits read back as the id |
| Schemas.NewResponse | schemas.py:181-184 | a response built from a message text alone has status SUCCESS and no data or unread count |
| Schemas.ErrorResponse | schemas.py:181-184 | an error response has status ERROR, the given text and no data or unread count |
| JsonWire.JsonFrame | protocol.py:266-275 | a JSON frame is the body followed by exactly one newline |
| JsonWire.NewlineIndex | protocol.py:288-290 | finds the first newline, and reports none iff the buffer has none |
| JsonWire.JsonExtract | protocol.py:277-291 | with no newline it returns nothing and leaves the buffer unchanged; otherwise buffer = frame + newline + rest and the frame has no newline |
| JsonWire.JsonFrameRoundTrip | protocol.py:266-291 | extracting from frame(d) + rest yields d and rest when d has no newline |
| JsonWire.JsonEncodeMessage | protocol.py:179-202 | serialisation fails iff the content is over 1,000,000 bytes, and otherwise yields the JSON body |
| JsonWire.JsonDecodeMessage | protocol.py:204-228 | an unparsable body is an error; a parsed message is accepted iff its content is at most 1,000,000 bytes |
| JsonWire.JsonMessageRoundTrip | protocol.py:179-291 | encode, frame, extract and decode give back the message and the rest of the buffer |
| Protocols.Create | protocol.py:737-754 | "json" gives the JSON protocol, "custom" the binary one, any other name an unknown-protocol error |
| Protocols.FrameRoundTrip | protocol.py:266-291 | for either protocol, extracting from a framed payload followed by more bytes yields the payload and the rest |
| Protocols.ExtractShrinks | protocol.py:682-726 | extraction never grows the buffer, and strictly shrinks it when it yields a frame |
| CustomWire.TypeTag | protocol.py:331-333 | the tag of a type is its index in declaration order |
| CustomWire.TagType | protocol.py:335 | a byte names a type iff it is below 12, and then it is that type's tag |
| CustomWire.TagTypeOfTag | protocol.py:331-335 | the reverse table undoes the forward table |
| CustomWire.BuildTagTables | protocol.py:327-335 | the loop builds a forward table defined on every type, and a reverse table defined exactly on bytes 0..11, each inverse to the other |
| CustomWire.StrBytes | protocol.py:341-355 | a string is encoded as its length in 4 bytes followed by its bytes |
| CustomWire.StrBytesPrefix | protocol.py:353-355 | the 4-byte prefix of an encoded string reads back as its length |
| CustomWire.ReadStringAt | protocol.py:357-376 | reading at offset o of pre + encode(s) + post returns s and o + 4 + \|s\| |
| CustomWire.ListField | protocol.py:422-458 | a list field starts with its element count |
| CustomWire.PackList | protocol.py:422-458 | the loop succeeds iff every element fits, and then returns the list field |
| CustomWire.EncodeMessage | protocol.py:378-471 | fails with ContentTooLarge iff content is over 1,000,000 bytes; otherwise the frame is the type tag, the 4-byte payload length, then the payload |
| CustomWire.SerializeMessage | protocol.py:378-471 | the loop-based serialiser returns exactly the encoding function's result |
| CustomWire.ReadByte | protocol.py:705 | reading one byte succeeds iff the offset is inside the data |
| CustomWire.ReadStamp | protocol.py:502-504 | reading the timestamp succeeds iff 8 bytes remain, and returns them |
| CustomWire.ReadStringsFailurePersists | protocol.py:357-376 | once reading the strings of a list fails, reading more of them fails the same way |
| CustomWire.UnpackList | protocol.py:473-550 | the list-reading loop returns exactly the list-reading function's result |
| CustomWire.DeserializeMessage | protocol.py:473-550 | the offset-threading deserialiser returns exactly the decoding function's result |
| CustomWire.Normalize | protocol.py:534-545 | the decoded message drops message_ids, and maps a zero id, empty recipients and an empty password to None |
| CustomWire.MessageRoundTrip | protocol.py:378-550 | decoding an encoded message gives the message with zero, empty-string and empty-list fields normalised to None |
| CustomWire.ExtractFrame | protocol.py:682-726 | the extractor's remainder is a suffix of the buffer; a returned frame is well formed and frame + remainder is the buffer |
| CustomWire.ExtractWellFormed | protocol.py:716-726 | a well-formed frame at the head of a buffer is cut off exactly |
| CustomWire.ExtractWaitsOnPrefix | protocol.py:696-721 | a proper prefix of a frame yields nothing and keeps the whole buffer |
| CustomWire.ExtractResynchronises | protocol.py:705-708 | an unknown tag byte is dropped alone, after which the next frame is extracted |
| CustomWire.ExtractDropsOversizeHeader | protocol.py:711-714 | a header declaring more than 1,000,000 payload bytes drops exactly its 5 bytes |
| CustomWire.FrameMessage | protocol.py:670-680 | binary framing returns the data unchanged |
| CustomWire.EncodedFrameExtracts | protocol.py:378-726 | an encoded message whose payload is within the limit is extracted whole, leaving the rest |
| CustomWire.OversizePayloadDropped | protocol.py:711-714 | an encoded message with a payload over 1,000,000 bytes loses its header and is never extracted |
| CustomWire.ContentAtLimit | protocol.py:407-409 | a message whose content is exactly 1,000,000 bytes |
| CustomWire.ContentAtLimitIsDropped | protocol.py:406-409 | that message serialises, yet its payload of 1,000,034 bytes is over the extractor's limit |
| CustomWire.CheckFrameSize | protocol.py:712 | an encoding passes iff it succeeded and its payload is within the extractor's limit |
| CustomWire.EncodeFrame | protocol.py:378-471 | the corrected serialiser succeeds iff the encoding succeeds and the payload is within 1,000,000 bytes |
| CustomWire.EncodeFrameRoundTrip | protocol.py:378-726 | every frame the corrected serialiser produces is extracted whole and decodes to the normalised message |
| CustomWire.StatusByte | protocol.py:578-579 | status SUCCESS is byte 0 and ERROR is not 0 |
| CustomWire.StatusOf | protocol.py:630-632 | byte 0 decodes to SUCCESS and any other byte to ERROR |
| CustomWire.EncodeEmbedded | protocol.py:590-598 | no data encodes as flag 0; data encodes as flag 1 followed by the encoded message, and fails when the message does |
| CustomWire.EncodeResponse | protocol.py:552-611 | a response frame carries the SERVER_RESPONSE tag, and encoding succeeds iff the text, unread count and embedded message fit |
| CustomWire.SerializeResponse | protocol.py:552-611 | the response serialiser returns exactly the encoding function's result |
| CustomWire.DeserializeEmbedded | protocol.py:613-668 | the embedded-message reader returns exactly the decoding function's result |
| CustomWire.DeserializeResponse | protocol.py:613-668 | the response deserialiser returns exactly the decoding function's result |
| CustomWire.EmbeddedRoundTrip | protocol.py:552-668 | an encoded data flag and message decode back to the normalised message, or to None when there was none |
| CustomWire.ResponseRoundTrip | protocol.py:552-668 | a decoded response has the same status, text and normalised embedded message, and a zero unread count becomes None |
| CustomWire.EncodeResponseFrame | protocol.py:552-611 | the corrected counterpart of the response encoder, with the frame-size guard the extractor expects: it succeeds iff the encoder succeeds within the 1,000,000-byte payload limit, and every frame it yields is well formed; the server itself sends with the unguarded encoder |
| CustomWire.OversizeResponseDropped | protocol.py:552-611 | as written, a response whose payload is over the limit is still encoded, and the receiver's extractor drops its header and reads the payload as new frames |
| CustomWire.ResponseFrame | protocol.py:599-611 | an encoded response is the SERVER_RESPONSE tag, the 4-byte payload length, then status, message, unread count and embedded message |
| CustomWire.ResponseHeader | protocol.py:601-602 | the length field of an encoded response is its total length minus the 5 header bytes |
| Tables.Empty | database.py:93-119 | a fresh store has no users and no messages |
| Tables.UnreadFor | database.py:248 | the clause matches exactly the unread rows addressed to u |
| Tables.Between | database.py:422-426 | the clause matches exactly the rows from a to b or from b to a |
| Tables.Involving | database.py:464-470 | the clause matches exactly the rows with u as sender or recipient |
| Tables.Select | database.py:244-254 | a query selects exactly the rows below the next id that satisfy the clause, in increasing id order |
| Tables.SelectSplit | database.py:346-393 | the rows matching w split into those also matching v and those not matching v |
| Tables.SortByTime | database.py:249 | `ORDER BY timestamp ASC` permutes the selected rows into timestamp order |
| Tables.InsertSorted | database.py:249 | inserting a row into a timestamp-sorted list keeps it sorted |
| Tables.SqlLimit | database.py:251-252 | a `LIMIT n` keeps the first n rows, or all of them for a negative n |
| Tables.AsChat | database.py:257-267 | a row becomes a message with its id, sender, content, timestamp and type, and a one-element recipient list |
| Tables.AsChats | database.py:436-446 | every selected row becomes one message, in the same order |
| Tables.AllUsers | database.py:395-403 | the user list holds each existing user exactly once |
| Tables.UnreadIds | database.py:230-269 | the unread query returns a prefix of the time-sorted unread rows for u |
| Tables.ConversationIds | database.py:405-450 | the history query returns a prefix of the time-sorted rows of the conversation |
| Tables.CreateUser | database.py:137-160 | a user is created iff the name is new; the new row holds the hashed password, and a taken name changes nothing |
| Tables.StoreMessage | database.py:195-228 | storing adds exactly one unread, undelivered row under the next id, addressed to recipients[0]; a message without recipients stores nothing |
| Tables.SetFlag | database.py:271-324 | an `UPDATE ... SET flag = TRUE` changes exactly the flag of the matching rows |
| Tables.MarkDeliveredOne | database.py:271-286 | marking delivered sets the flag of that one id and leaves every other row unchanged |
| Tables.MarkAllDelivered | database.py:271-286 | marking a list of ids delivered sets exactly their flags |
| Tables.DeleteWhere | database.py:346-393 | a `DELETE` keeps exactly the rows that do not match, unchanged |
| Tables.DeletedInfo | database.py:364-377 | each deleted row yields one (recipient, was unread) pair |
| Tables.DeleteClause | database.py:380-391 | the delete clause matches ids in the list within the (u, r) conversation in either direction |
| Tables.RemoveAccount | database.py:472-478 | deleting a user keeps every other account and keeps names unique |
| Tables.FlagsOnlyRise | database.py:271-324 | marking delivered or read never clears a read or delivered flag |
| Tables.RowsKept | database.py:137-484 | creating users, storing and deleting never clear a flag of a row that stays |
| Tables.StoreAddsOneRow | database.py:195-228 | storing adds one fresh id, unread and undelivered, addressed to recipients[0], and keeps every other row |
| Tables.UnreadCountMatchesMessages | database.py:326-344 | the unread count equals the number of unread messages returned without a limit |
| Tables.UnreadMessagesAddressed | database.py:230-269 | every unread message returned, under any limit, is addressed to u alone |
| Tables.UnreadIdsComplete | database.py:230-269 | without a limit, every unread row addressed to u is returned |
| Tables.ConversationIdsComplete | database.py:405-450 | with a negative limit, every row between a and b in either direction is returned |
| Tables.UnreadCountCounts | database.py:326-344 | get_unread_count is the number of distinct rows addressed to u and unread |
| Tables.VerifyUserByStoredHash | database.py:162-180 | only an existing user verifies, and then iff the password's digest equals the digest stored under that name |
| Tables.CreatedUserExists | database.py:137-193 | after create_user, user_exists holds for the new name and is unchanged for every other name |
| Tables.MarkDelivered | database.py:271-286 | mark_delivered keeps the store's invariant (unique names, ids below the next id); the row it changes is stated by MarkDeliveredOne |
| Tables.MarkRead | database.py:288-306 | mark_read keeps the store's invariant; the rows it changes are stated by MarkReadExactly |
| Tables.MarkReadFromUser | database.py:308-324 | mark_read_from_user keeps the store's invariant; the rows it changes are stated by MarkReadFromUserExactly |
| Tables.DeleteMessages | database.py:346-393 | delete_messages keeps the store's invariant; the rows it removes and reports are stated by DeleteMessagesRows and DeleteMessagesReport |
| Tables.DeleteUser | database.py:452-484 | delete_user keeps the store's invariant; what it removes is stated by DeleteUserExactly |
| Tables.UnreadMessagesShape | database.py:230-269 | a positive limit bounds the result, which is sorted by timestamp |
| Tables.UnreadIdsRows | database.py:244-250 | every id returned is an unread row addressed to u |
| Tables.ConversationShape | database.py:405-450 | at most limit messages, each a DM of the (a, b) conversation in either direction, in ascending timestamp order |
| Tables.ConversationIdsShape | database.py:418-434 | the ids returned number at most limit, lie in the conversation and are sorted by timestamp |
| Tables.MarkReadExactly | database.py:288-306 | mark_read sets the read flag exactly on the listed ids addressed to u and changes nothing else |
| Tables.MarkReadFromUserExactly | database.py:308-324 | mark_read_from_user(r, s) sets the read flag exactly on the rows from s to r |
| Tables.MarkReadFromUserCount | database.py:308-344 | after mark_read_from_user(r, s), r's unread count drops by the number of unread rows from s |
| Tables.StillUnreadAfterMark | database.py:308-324 | a row is still unread for r afterwards iff it was unread for r and not from s |
| Tables.DeleteMessagesRows | database.py:346-393 | delete_messages removes exactly the listed ids in the (u, r) conversation and keeps every other row unchanged |
| Tables.DeleteCount | database.py:346-393 | the rows kept plus the rows selected for deletion are all the rows |
| Tables.DeleteMessagesCount | database.py:346-393 | the returned count equals the number of pairs reported and the number of rows removed |
| Tables.DeleteMessagesReport | database.py:364-393 | the pairs reported are exactly (recipient, was unread) of the removed rows |
| Tables.DeleteOutsideConversation | database.py:346-393 | ids outside the conversation remove nothing and report 0 |
| Tables.DeleteUserExactly | database.py:452-484 | delete_user returns true iff the user existed, removes only that user and every message they sent or received |
| Store.Database.constructor | database.py:56-66 | a new database is valid and empty |
| Store.Database.CreateUser | database.py:137-160 | the tables and the result are those of the create-user function |
| Store.Database.StoreMessage | database.py:195-228 | the tables and the returned id are those of the store function |
| Store.Database.MarkDelivered | database.py:271-286 | the tables become those of the mark-delivered function |
| Store.Database.MarkRead | database.py:288-306 | the tables become those of the mark-read function |
| Store.Database.MarkReadFromUser | database.py:308-324 | the tables become those of the mark-read-from-user function |
| Store.Database.DeleteMessages | database.py:346-393 | the tables, count and report are those of the delete function |
| Store.Database.DeleteUser | database.py:452-484 | the tables and result are those of the delete-user function |
| Accounts.Lookup | auth.py:125-127 | a name is absent iff no entry carries it, and otherwise maps to an entry's socket |
| Accounts.AssignLookup | auth.py:90 | after assigning u, u maps to the new socket, every other name is unchanged, and an existing key keeps its place |
| Accounts.AssignUnique | auth.py:90 | assigning keeps names unique |
| Accounts.PopProperties | auth.py:115 | popping u removes u, keeps every other name, and is a no-op when u is absent |
| Accounts.RemoveFirstAbsent | auth.py:129-134 | removing a socket that no entry carries changes nothing |
| Accounts.RemoveFirstAt | auth.py:129-134 | removing a socket deletes exactly the first entry carrying it |
| Accounts.AsMap | auth.py:125-127 | the registry viewed as a dictionary |
| Accounts.VerifyLogin | auth.py:49-68 | success iff the user exists and the hash matches, with "User does not exist", "Invalid password" or "Login successful" |
| Accounts.UnreadCount | auth.py:82-87 | the unread count is at most the number of messages, and equal only when all are unread and addressed to u |
| Accounts.AuthManager.constructor | auth.py:10-13 | a new manager has the given users and mail and no active connections |
| Accounts.AuthManager.CreateAccount | auth.py:19-47 | an empty name or an existing name is an error that changes nothing; otherwise the hashed password is stored |
| Accounts.AuthManager.Login | auth.py:70-101 | a failed check returns its message and changes nothing; success assigns the socket to the name and reports the unread count |
| Accounts.AuthManager.DeleteAccount | auth.py:103-123 | a missing user gives "Account not found" and changes nothing; otherwise the user is deleted and popped from the registry |
| Accounts.AuthManager.ActiveConnections | auth.py:125-127 | the returned dictionary holds exactly the registry's entries |
| Accounts.AuthManager.RemoveConnection | auth.py:129-134 | only the first entry carrying the socket is removed |
| Routing.DropUnderscores | server.py:376 | removing underscores keeps every other byte and only those |
| Routing.ValidateUsername | server.py:361-378 | valid iff at least 2 bytes, all alphanumeric or '_', and at least one alphanumeric; the errors come in the order required, too short, invalid |
| Routing.RecipientTargets | server.py:332-343 | the targets are the sockets of the online recipients other than the excluded one |
| Routing.BroadcastTargets | server.py:346-359 | the targets are every client socket except the excluded one |
| Routing.Route | server.py:315-359 | messages with recipients go to online recipients, others to every client, never to the excluded socket |
| Routing.Sends | server.py:109-137 | the sends that succeed are exactly the tries on live sockets with encodable responses |
| Routing.Failures | server.py:338-358 | the failed tries name exactly the sockets whose send failed |
| Routing.Fanout | server.py:334-359 | one try per target, in order, all with the same response |
| Routing.PushAll | server.py:218-221 | one try per fetched message, each to the requester with the unread total |
| Routing.DeliveredIds | server.py:219-221 | the ids marked delivered are exactly those of successfully sent messages |
| Routing.PushAllReach | server.py:218-221 | every successful fetch send goes to the requester with the total, and every sendable fetched message is sent |
| Routing.PushAllIds | server.py:218-221 | an id is marked delivered iff a fetched message with that id was sent |
| Routing.RecipientsDelivered | server.py:173-177 | a stored DM is marked delivered iff some online recipient's push succeeded |
| Routing.SendableCases | protocol.py:552-611 | a JSON response always serialises; a binary one fails only when a string, the unread count or the payload overflows its 4-byte length, or the embedded message does not encode |
| Routing.PushAtLimitDropped | server.py:125-137 | a push of a message at the content limit goes out over the binary protocol, yet its frame is over the receiver's limit and its header is dropped |
| Routing.EchoedReach | server.py:172-181 | a DM's sends reach exactly the working sockets of its online recipients and of its sender, each with the stored message |
| Routing.Pushed | server.py:126-131 | a pushed message is a SUCCESS response "new_message" carrying it and the unread count |
| Routing.RoutingReach | server.py:315-359 | recipient sends reach only online, non-excluded recipients and reach each of them; a broadcast reaches exactly the live, non-excluded clients |
| Routing.NoticeTries | server.py:301-313 | one delete notice per online user to notify, carrying that user's unread decrement |
| Routing.Notified | server.py:284-293 | the users to notify are the requester plus every recipient of a deleted row, each once |
| Routing.DeleteNotice | server.py:306-312 | a delete notice comes from the requester with the deleted ids and the decrement |
| Routing.UnreadDeletedCounts | server.py:292-298 | the decrement for u is the number of deleted rows that were unread and addressed to u |
| Chat.Initial | server.py:62-68 | a new server has no clients, no sessions and an empty outbox |
| Chat.ActiveNames | server.py:547 | the active-user list is the clients' names in login order |
| Chat.ActiveNamesAreUsernames | server.py:547 | the active-user list holds exactly the logged-in names, each once |
| Chat.Push | server.py:109-137 | a push succeeds iff the socket is live and the response encodes, and then appears in the outbox |
| Chat.Spread | server.py:331-359 | successful sends are logged, and failed sockets are queued for removal |
| Chat.SendError | server.py:709-723 | the error response is logged iff the socket is known and live |
| Chat.MissingRecipient | server.py:163-166 | reports the first recipient that does not exist, and nothing iff all exist |
| Chat.Dispatch | server.py:169-181 | storing and delivering a DM changes only the tables and the outbox and keeps the registry invariant |
| Chat.HandleDm | server.py:139-181 | handle_dm changes only the tables and outbox and keeps the registry invariant |
| Chat.SendToRecipients | server.py:315-359 | a non-DM message is spread over its route; registry and buffers are unchanged |
| Chat.FetchResults | server.py:199-213 | a fetch returns at most a positive limit; two recipients give DMs of that pair in either direction, otherwise messages addressed to the requester alone |
| Chat.NotifyUnread | server.py:239-247 | the requester, if online, is pushed its current unread count when the send works; nothing else changes |
| Chat.FetchLimit | server.py:196-197 | a missing or zero fetch count becomes 10 |
| Chat.HandleFetch | server.py:183-221 | a fetch changes only the tables and the outbox |
| Chat.UnreadNotice | server.py:241-246 | the unread notice is a system CHAT message carrying the count |
| Chat.HandleMarkRead | server.py:223-261 | mark-read changes only the tables and the outbox |
| Chat.HandleDelete | server.py:263-313 | delete changes only the tables and the outbox |
| Chat.LogoutMessage | server.py:662-666 | the logout notice is a LOGOUT from u with text "u has logged out" |
| Chat.Unregister | server.py:651-659 | unregistering a client keeps the registry invariant |
| Chat.RemoveClient | server.py:637-677 | the socket is closed and no longer a client |
| Chat.Reap | server.py:339-343 | running a scheduled removal keeps the registry invariant |
| Chat.RecipientsReached | server.py:315-359 | a non-DM message reaches exactly the live, routed, non-excluded sockets; every other socket it was routed to is queued for removal |
| Chat.DmRefused | server.py:152-166 | a DM with empty or blank content or an unknown recipient stores nothing; no recipients means nothing happens |
| Chat.DmStored | server.py:169-170 | an accepted DM is stored once, under a fresh id, from the sender to recipients[0], unread |
| Chat.DispatchStores | server.py:169-177 | the stored row is the store function's row, except for the delivered flag |
| Chat.DispatchSends | server.py:168-181 | storing and delivering a DM sends it under its new id to each online recipient in turn, then to its sender if online |
| Chat.DmSent | server.py:168-181 | an accepted DM appends exactly the working pushes to its online recipients, in order, then the echo to its sender if online and working |
| Chat.DmReach | server.py:168-181 | an accepted DM reaches a socket iff the socket works and belongs to an online recipient or to the sender; every new entry is that message |
| Chat.DmRefusal | server.py:155-166 | a refused DM's error is "Empty message not allowed" for blank content, otherwise "User 'r' does not exist" for the first recipient r without an account |
| Chat.DmRefusedReply | server.py:152-166 | a refused DM changes nothing but the outbox, which gains that error for the sender iff the send works; the handler raises iff it does not |
| Chat.DmDeliveredIff | server.py:173-177 | the stored DM is marked delivered iff some online recipient received it |
| Chat.FetchPushes | server.py:183-221 | every fetch send goes to the requester with the total and a fetched message, and every sendable fetched message is sent |
| Chat.FetchMarksWhatWasSent | server.py:218-221 | after a fetch, exactly the already-delivered rows and the rows successfully sent are marked delivered |
| Chat.MarkReadReportsCount | server.py:223-261 | recipients mark the conversation read, ids mark those ids read, and an online requester is sent the new unread count |
| Chat.NotifiedAreAffected | server.py:279-298 | the users notified are exactly the requester and the recipients of deleted rows, with the right decrement each |
| Chat.DeleteNoticesCount | server.py:299-313 | every notice goes to an affected online user with that user's decrement, and every such user who can be reached gets one |
| Chat.DeleteNoticesSent | server.py:263-313 | the new outbox entries are exactly the notices to affected online users whose sends succeed |
| Chat.RemoveClientExactly | server.py:637-677 | removal drops the socket from both maps and the buffers; a logged-in user with send_logout gets a logout broadcast to all other live clients; an unknown socket changes nothing but closes it |
| Sessions.Reply | server.py:428-431 | a reply is pushed, and a failed send closes the session |
| Sessions.HandleRegister | server.py:433-492 | register changes only the tables and outbox and never stops the batch |
| Sessions.JoinMessage | server.py:537-541 | the join notice is a JOIN from u with text "u has joined the chat" |
| Sessions.UserList | server.py:551-557 | the user-list update carries all users and the active users |
| Sessions.UnreadReminder | server.py:566-572 | the reminder is a system CHAT message "You have n unread messages" |
| Sessions.SignIn | server.py:531-534 | binding a socket to a name keeps the two maps mutual inverses |
| Sessions.LoginAnswer | server.py:546-558 | the login answer lists exactly the existing users and exactly the online users |
| Sessions.Welcome | server.py:536-573 | the join broadcast comes first, the registry and tables are unchanged, and the batch is never stopped |
| Sessions.Greet | server.py:545-573 | only the outbox grows, and the session continues iff the login answer is sent |
| Sessions.HandleLogin | server.py:494-574 | login keeps the invariant, changes no tables and never stops the batch |
| Sessions.Others | server.py:610-612 | the remaining active users are all but u |
| Sessions.AccountDeletedNotice | server.py:598-605 | the notice is a system DELETE_ACCOUNT message to the online users |
| Sessions.HandleDeleteAccount | server.py:591-623 | account deletion leaves the registry and buffers unchanged |
| Sessions.Authenticated | server.py:576-625 | the authenticated dispatch leaves the registry and buffers unchanged |
| Sessions.HandleFrame | server.py:414-625 | a frame step keeps the invariant, the buffers and the set of sessions |
| Sessions.Accept | server.py:93-95 | a new connection gets an empty buffer and an unauthenticated session |
| Sessions.Finish | server.py:630-635 | the handler's end removes the session and the client |
| Sessions.Drain | server.py:404-414 | draining keeps the session until a frame closes it |
| Sessions.Receive | server.py:395-402 | received bytes are appended and drained; the result says whether the session ended |
| Sessions.UndecodableCloses | server.py:414 | a frame that does not decode ends the handler with no other change |
| Sessions.UnauthenticatedRefused | server.py:417-431 | before login, a frame other than LOGIN or REGISTER sends one LOGIN_REQUIRED error, ends the handler and changes nothing else |
| Sessions.RegisterCreates | server.py:433-492 | an accepted register adds exactly the account with the hashed password, which then verifies; a refused one changes no table |
| Sessions.RegisterReplies | server.py:433-492 | the single reply goes to the registering socket, is SUCCESS iff accepted, and carries the validation error when the name is invalid |
| Sessions.RegisterAnswers | server.py:433-492 | register adds one reply when the session continues, and none when the send failed and the session closes |
| Sessions.LoginRefused | server.py:494-528 | a refused login sends at most one error to the socket, leaves the registry unchanged and ends the handler |
| Sessions.WelcomeAnnounces | server.py:536-542 | every live logged-in client receives the join notice |
| Sessions.LoginAcceptedOutcome | server.py:531-574 | an accepted login binds socket and name in both maps and the login order, keeps the tables, and continues iff the answer is sent |
| Sessions.LoginAnnounced | server.py:531-542 | every live client, including the new one, receives the join notice |
| Sessions.StopBatchKeepsSession | server.py:577-623 | only LOGOUT, or DELETE_ACCOUNT of an existing user, stops the batch, and then the session stays registered |
| Sessions.AccountDeleted | server.py:591-623 | the user and all their messages are gone, other users are kept, and the batch stops iff the user existed |
| Sessions.RelayedAlongRoute | server.py:624-625 | any other frame kind from a logged-in connection is relayed along its own route with nothing excluded, the sender's own socket included, and the handler continues |
| Sessions.AuthenticatedStops | server.py:577-623 | after login, only LOGOUT, or DELETE_ACCOUNT of an existing account, stops the batch |
| Sessions.EveryoneReached | server.py:598-606 | a message addressed to every online name reaches every live client |
| Sessions.AccountDeletedAnnounced | server.py:596-606 | after a deletion every live client receives the notice |
| Sessions.DrainLeavesNoFrame | server.py:404-412 | with the JSON protocol, a session still waiting has no complete frame left in its buffer |
| Server.ChatServer.constructor | server.py:43-68 | a new server holds the initial world and the given protocol and configuration |
| Server.ChatServer.Push | server.py:109-137 | the in-place send is the push function, and logs the response iff it succeeds |
| Server.ChatServer.SendError | server.py:709-723 | the in-place error send is the error-send function |
| Server.ChatServer.SendToNamed | server.py:332-343 | the recipient loop logs the successful tries and queues the failed sockets |
| Server.ChatServer.Broadcast | server.py:346-359 | the broadcast loop logs the successful tries and queues the failed sockets |
| Server.ChatServer.SendToRecipients | server.py:315-359 | the new state is that of send-to-recipients, and the invariant holds |
| Server.ChatServer.HandleDm | server.py:139-181 | the new state is that of handle_dm |
| Server.ChatServer.Store | server.py:169-181 | storing and delivering updates the server to the dispatch function's state |
| Server.ChatServer.Deliver | server.py:173-177 | the delivery loop logs the successful sends and marks exactly their ids delivered |
| Server.ChatServer.HandleFetch | server.py:183-221 | the new state is that of the fetch handler |
| Server.ChatServer.PushFetched | server.py:218-221 | the fetch loop logs the successful sends and marks exactly their ids delivered |
| Server.ChatServer.NotifyUnread | server.py:239-247 | the new state is that of the unread notice |
| Server.ChatServer.HandleMarkRead | server.py:223-261 | the new state is that of the mark-read handler |
| Server.ChatServer.HandleDeleteMessages | server.py:263-313 | the new state is that of the delete handler |
| Server.ChatServer.SendNotices | server.py:301-313 | the notice loop logs the successful notices to online users |
| Server.ChatServer.Tally | server.py:284-298 | the loop collects the users to notify, each once, and each user's unread decrement |
| Server.ChatServer.RemoveClient | server.py:637-677 | the new state is that of remove_client |
| Server.ChatServer.Unregister | server.py:651-659 | the maps and buffers lose the socket as the unregister function says, and the invariant is kept |
| Server.ChatServer.Reap | server.py:339-343 | a scheduled removal runs as the reap function says |
| Server.ChatServer.HandleRegister | server.py:433-492 | the new state and flow are those of the register step |
| Server.ChatServer.HandleLogin | server.py:494-574 | the new state and flow are those of the login step |
| Server.ChatServer.Welcome | server.py:536-573 | the new state and flow are those of the welcome step |
| Server.ChatServer.HandleDeleteAccount | server.py:591-623 | the new state and flow are those of account deletion |
| Server.ChatServer.Authenticated | server.py:576-625 | the new state and flow are those of the authenticated dispatch |
| Server.ChatServer.HandleFrame | server.py:414-625 | the new state and flow are those of the per-frame step |
| Server.ChatServer.Accept | server.py:93-95 | the new connection is set up as the accept function says |
| Server.ChatServer.Finish | server.py:630-635 | the handler's end removes the client as the finish function says |
| Server.ChatServer.Drain | server.py:404-414 | the frame loop ends in the state and outcome of the drain function |
| Server.ChatServer.Receive | server.py:395-402 | receiving bytes ends in the state of the receive function |

## Left out

- Threads, the server lock, `start`, `shutdown` and the accept loop: the model is sequential. `recv` becomes the `data` parameter of `Receive`, and the detached removal thread becomes the `pending` queue that `Reap` empties.
- Socket I/O: `send`, `shutdown` and `close` are not modelled. A send that raises is a socket in the `down` set or a response that `serialize_response` cannot encode (a 4-byte length overflow; it checks no frame size), and `send_to_client` swallows it.
- Accounts.AuthManager.ActiveConnections: returns a copy of the registry as a value. auth.py:125-127 returns the live dictionary, so a caller's later change to it would change the manager; that aliasing is not modelled.
- Logging and debug prints are not modelled.
- Password hashing (bcrypt in the database, SHA-256 in the account manager) is an uninterpreted function `hash`.
- Database connection: the `Database` constructor (database.py:56-66) never assigns `self.conn`. The model assumes a working store rather than the failure that would follow.
- SQLite adapters and connection setup (database.py:18-80) are not modelled.
- Tables.StoreMessage: a message without recipients would break the `recipient NOT NULL` constraint and raise. The model returns no id and leaves the tables unchanged.
- Tie order: rows with equal timestamps, and `SELECT` without `ORDER BY`, come back in ascending id order.
- Account manager tables: the account manager's own two-column `users` table and its `messages.read` column are modelled separately from the server's database, as auth.py does.
- Text: text is bytes. UTF-8 encoding and decoding are the identity, and `isalnum` and `isspace` are their ASCII forms.
- Timestamp: the timestamp is 8 opaque bytes, ordered by their big-endian value. The 8-byte float is not interpreted.
- JSON bodies: `model_dump_json` and `model_validate_json` are the parameters `dump` and `load`; only the newline framing and the content check are modelled.
- Routing.Notified: Python iterates `users_to_notify`, a set, in an unspecified order. The model notifies each user once, in first-seen order; the contracts state membership, not order.
- Sessions.DrainLeavesNoFrame: stated for the JSON protocol only. For the binary protocol, the model proves instead that extraction always shrinks the buffer (Protocols.ExtractShrinks).
- Chat.HandleDm, Chat.HandleFetch, Chat.HandleMarkRead, Chat.HandleDelete, Sessions.HandleRegister, Sessions.HandleLogin, Sessions.HandleDeleteAccount, Sessions.Authenticated and Sessions.HandleFrame: these functions' own contracts state only the frame and the invariant. What each handler does is stated by the lemmas beside it in the table.
- Where the code differs from its documentation, the model follows the code:
  - LOGOUT and DELETE_ACCOUNT `break` out of the frame loop only. The session stays registered until the connection closes.
  - The requester of fetch, mark-read and delete is `message.username`, not the logged-in user.
  - A broadcast from the handler is not excluded from the sender.
  - Logging in a user who is already online is refused, with no eviction.
- client.py, gui_client.py, models.py, analyze_protocols.py and the superseded files are not part of this model.

## Findings

| source | as written | input that shows it | evidently intended | confidence | as-written member | corrected member |
|---|---|---|---|---|---|---|
| protocol.py:406-409 | `serialize_message` limits only the content to 1,000,000 bytes, but `extract_message` (protocol.py:711-714) drops any frame whose whole payload is over 1,000,000 bytes | a message whose content is exactly 1,000,000 bytes serialises to a payload of 1,000,034 bytes; the receiver drops its header and never delivers it | the sender refuses any message the receiver would drop | not executed | CustomWire.ContentAtLimitIsDropped | CustomWire.EncodeFrameRoundTrip |
