# chat-application: a verified model of the messaging core

This project models the core of a one-to-one chat application. The server
is Express plus Socket.io over a MongoDB store. The browser client renders
conversations and signals calls. The model covers these parts:

- **Presence** (`presence.dfy`). The server's `onlineUsers` map goes from a user id to the
  socket that last identified as that user. A JavaScript `Map` iterates in
  insertion order and keeps a key's place when it is set again. So the map
  is modelled as an ordered sequence of bindings with distinct users.
  Presence offers lookup, `set`, the reverse lookup "which user is this
  socket", and the disconnect loop that deletes the first binding to a
  socket and stops.
- **Messages** (`messages.dfy`). A message record has an id, sender,
  receiver, text, `createdAt` and a status: `sent`, `deleted` or `archived`.
  The REST controller has five operations: send, get the history of a
  conversation, soft delete, archive a conversation, and undo the last
  message within 120 seconds. Each controller decision is a function on the
  table's contents. The `MessageTable` class holds the records and applies
  those decisions in place.
- **Socket handlers** (`server.dfy`). The `ChatServer` class holds the
  presence map, the message table and an outbox. Every `io.to(s).emit(…)`
  appends one emission to the outbox. Each handler is one atomic step:
  `identify`, `message`, `delete-message`, `undo-message`, `call-user`,
  `answer-call`, `ice-candidate` and `disconnect`.
- **Client decisions** (`client.dfy`). This covers the loop in
  `fetchMessages` that marks the one message with an undo button and the
  buttons `renderMessage` shows. It also covers the filter for pushed
  messages, the compose box's trim guard, the submit flow, and the reaction
  to a call answer, including a declined one.
- **Accounts** (`accounts.dfy`). Registration and login run over the users
  collection. Each user document keeps a contact list that
  `addContact`/`removeContact` edit in place. `getContacts` lists the
  populated contacts.

Some conventions hold throughout the model:

- Request fields are `Option<string>`. JavaScript truthiness of such a
  field (`Common.Present`) means present and non-empty.
- Time is an integer number of milliseconds.
- The store's `_id` comes from a counter in the table.
- The clock, password hashing (`hash`) and comparison (`matches`) are
  parameters.

Some of the code's behaviour is kept as it is, not as one might expect:

- The socket `delete-message` handler marks the record deleted whoever asks.
  It does not check ownership the way the REST delete does.
- `identify` never removes an older binding of the same socket under
  another user. The reverse lookup answers the first such user in map order
  (`Presence.SharedSocketAfterIdentify`).
- The REST soft delete sets `deleted` from any status. An archived message
  that its sender deletes therefore reappears in the history
  (`Messages.DeleteResurfacesArchived`).
- One submit in the client stores two records. The client POSTs the message,
  then emits `message` on the socket, and the socket handler creates a
  record of its own. Both records are in the history (`Client.Submit`,
  `Client.SubmittedTextListedTwice`).

## Model

| member | source | states |
|---|---|---|
| Messages.WithStatus | chat-application/controllers/messageController.js:48-49 | the record at the position gets the new status; all its other fields and every other record are unchanged |
| Messages.FindById | chat-application/controllers/messageController.js:43-44 | no position exactly when no record has the id; otherwise a position holding that id |
| Messages.FindByIdUnique | chat-application/controllers/messageController.js:43 | with distinct ids, the lookup answers the one record carrying the id |
| Messages.Visible | chat-application/controllers/messageController.js:25-30 | a record is kept exactly when it goes between the two users in either direction and is not archived, and it is kept as many times as it is stored |
| Messages.InsertByTime | chat-application/controllers/messageController.js:31 | inserting into a list sorted by `createdAt` keeps it sorted and adds exactly that record |
| Messages.SortByTime | chat-application/controllers/messageController.js:31 | the result is sorted by ascending `createdAt` and is a permutation of the input |
| Messages.History | chat-application/controllers/messageController.js:25-31 | sorted by ascending `createdAt` and a permutation of the conversation's non-archived messages |
| Messages.HistoryMembers | chat-application/controllers/messageController.js:25-31 | the sorted history holds exactly the non-archived messages of the conversation, each as many times as it is stored |
| Messages.GetMessages | chat-application/controllers/messageController.js:21-32 | 400 "user1 and user2 are required" exactly when a user is missing; every other failure is excluded; otherwise a list sorted by time holding each of the conversation's non-archived messages as many times as it is stored |
| Messages.VisibleSymmetric | chat-application/controllers/messageController.js:26-29 | the conversation filter gives the same list with the two users swapped |
| Messages.HistorySymmetric | chat-application/controllers/messageController.js:25-31 | the history is the same with the two users swapped |
| Messages.DeleteDecision | chat-application/controllers/messageController.js:43-47 | 404 exactly when no record has the id; 403 or success otherwise; success names a record with that id sent by the requester; with distinct ids, success exactly when the requester is the sender |
| Messages.DeleteResurfacesArchived | chat-application/controllers/messageController.js:43-49 | an archived message is out of the history; its sender may still delete it, and the deleted record is back in the history |
| Messages.Archive | chat-application/controllers/messageController.js:63-68 | every record between the two users, in either direction, becomes archived; every other record is unchanged |
| Messages.ArchiveDecision | chat-application/controllers/messageController.js:60-68 | 400 exactly when a user is missing and no other failure; otherwise the table with the conversation archived (`Archive`) |
| Messages.ArchiveIdempotent | chat-application/controllers/messageController.js:63-68 | archiving twice equals archiving once |
| Messages.ArchiveEmptiesHistory | chat-application/controllers/messageController.js:63-68 | after archiving, the conversation's history is empty |
| Messages.UndoTarget | chat-application/controllers/messageController.js:84-88 | none exactly when no `sent` message goes from the sender to the receiver; otherwise such a message with the greatest `createdAt`, later positions holding strictly older ones |
| Messages.UndoDecision | chat-application/controllers/messageController.js:80-97 | the only failures are 400 "Receiver is required", exactly without receiver; 404 "No message to undo", exactly when nothing matches; and 400 "Undo window expired", exactly when every match is more than 120000 ms old; otherwise success names the newest matching message |
| Messages.UndoAtWindowEdge | chat-application/controllers/messageController.js:92 | undo succeeds exactly 120000 ms after sending and fails 1 ms later |
| Messages.UndoTouchesOnlyTarget | chat-application/controllers/messageController.js:95-96 | undo changes only its target, which leaves the set of undoable messages |
| Messages.UndoScenario | chat-application/controllers/messageController.js:84-96 | send at 0, undo at 119000 ms succeeds, a second undo answers "No message to undo" |
| Messages.MessageTable.Create | chat-application/controllers/messageController.js:11 | appends one `sent` record with the next fresh id and the given time; ids stay distinct |
| Messages.MessageTable.SaveStatus | chat-application/controllers/messageController.js:48-49 | the table becomes the status update of that one record |
| Messages.MessageTable.FindByIdAndUpdate | chat-application/server.js:69 | an unknown id changes nothing; otherwise the record with the id gets the new status |
| Messages.MessageTable.ArchiveConversation | chat-application/controllers/messageController.js:63-68 | the table becomes its archived form for the two users |
| Messages.SendMessage | chat-application/controllers/messageController.js:7-12 | 400 "All fields are required" with no change when a field is missing; otherwise exactly one new `sent` record, which is returned |
| Messages.DeleteMessage | chat-application/controllers/messageController.js:41-50 | on failure the table is unchanged; on success exactly the decided record becomes deleted and is returned |
| Messages.ArchiveChat | chat-application/controllers/messageController.js:59-69 | on failure the table is unchanged; on success the table is archived for the conversation |
| Messages.UndoMessage | chat-application/controllers/messageController.js:78-97 | on failure the table is unchanged; on success exactly the undo target becomes deleted and is returned |
| Presence.KeyIndex | chat-application/server.js:48 | the position of the user's binding, none exactly when the user is absent |
| Presence.Get | chat-application/server.js:48 | none exactly when no binding has the user; otherwise a socket bound to that user |
| Presence.GetAt | chat-application/server.js:48 | with distinct users, the lookup answers the socket of the user's binding |
| Presence.SocketIndex | chat-application/server.js:74 | the first position whose socket is the one asked for, none exactly when there is none |
| Presence.Set | chat-application/server.js:35-37 | afterwards the user maps to the socket; users stay distinct; an existing key keeps its place, a new one is appended; no other position changes |
| Presence.UserOf | chat-application/server.js:97 | none exactly when no binding has the socket; otherwise the user of the first binding, in map order, that has it |
| Presence.SenderSocket | chat-application/server.js:74 | present exactly when the reverse lookup finds a user, and then a socket bound to that user |
| Presence.RemoveFirstSocket | chat-application/server.js:125-129 | one binding fewer when some binding has the socket, the same length otherwise, no binding that was not there before; exactly the first binding with the socket goes, and the rest keep their order |
| Presence.SetKeepsOthers | chat-application/server.js:36 | setting one user leaves every other user's lookup as it was |
| Presence.RemoveFirstSocketShape | chat-application/server.js:123-130 | users stay distinct; an unknown socket changes nothing; otherwise exactly one binding goes and its user is offline |
| Presence.RemoveFirstSocketKeepsOthers | chat-application/server.js:125-129 | every user other than the one the first matching binding names keeps its lookup |
| Presence.RemoveFirstSocketKeepsUserOf | chat-application/server.js:125-129 | a disconnect leaves the reverse lookup of every other socket answering the same user |
| Presence.DropKeepsUserOf | chat-application/server.js:125-129 | dropping one binding of another socket and keeping the rest in order does not change a socket's reverse lookup |
| Presence.SocketIndexAt | chat-application/server.js:125-126 | the first position holding the socket is the one the search answers |
| Presence.RebindSurvivesStaleDisconnect | chat-application/server.js:125-129 | after identifying on h1 then h2, the user maps to h2, others are unaffected, and the disconnect of h1 leaves the user on h2 |
| Presence.SharedSocketAfterIdentify | chat-application/server.js:36 | a second user identifying on a held socket leaves both bound to it; the reverse lookup still answers the first; disconnect leaves the newcomer bound to the closed socket |
| Presence.SetNewUserKeepsUserOf | chat-application/server.js:36 | binding a user without a binding keeps the reverse lookup of an already taken socket on its earlier user, never the newcomer |
| Presence.SenderSocketIsOwnSocket | chat-application/server.js:74 | the "sender socket" lookup answers the requesting socket when some user is bound to it, and nothing otherwise |
| Server.DeliverTo | chat-application/server.js:48-55 | at most one emission, present exactly when the user is given and online, carrying the event to a socket bound to that user |
| Server.PayloadOf | chat-application/server.js:50-54 | the incoming sender, receiver and text, with the saved record's `createdAt` and id |
| Server.ChatServer.Identify | chat-application/server.js:35-37 | the presence map becomes its `set` for the user and socket |
| Server.ChatServer.OnMessage | chat-application/server.js:40-65 | one new record; the payload with the record's time and id goes to the receiver's socket and then to the sender's, each only when online |
| Server.ChatServer.OnDeleteMessage | chat-application/server.js:68-78 | the record with the id becomes deleted, with no ownership check; the id goes to the receiver and to the requesting socket's user, each only when online |
| Server.ChatServer.OnUndoMessage | chat-application/server.js:81-90 | the table is untouched; the notice goes to the receiver and to the requesting socket's user when online |
| Server.ChatServer.OnCallUser | chat-application/server.js:93-101 | exactly one `call-made` with the offer verbatim to the callee when online, nothing otherwise |
| Server.ChatServer.OnAnswerCall | chat-application/server.js:103-111 | exactly one `answer-made` with the answer verbatim, a missing answer included, to the caller when online |
| Server.ChatServer.OnIceCandidate | chat-application/server.js:113-121 | exactly one `ice-candidate` with the candidate verbatim to the peer when online |
| Server.ChatServer.Disconnect | chat-application/server.js:123-130 | the map loses exactly its first binding to the socket, if any, and keeps distinct users |
| Server.TwoUsersBindings | chat-application/server.js:35-37 | two users identifying, and then one socket closing, give the expected map and lookups |
| Server.SendWhileOnlineScenario | chat-application/server.js:40-65 | with both users online, a message is pushed to the receiver and then the sender; after the receiver leaves, the stored message is in its history |
| Server.ReloadBindings | chat-application/server.js:35-37 | identifying `b`, then `a` twice, gives `a`'s binding replaced in place after `b`'s |
| Server.ReloadLookups | chat-application/server.js:123-130 | after the reload the old socket's disconnect changes nothing, `a` is on the new socket, and a call from `b` is pushed there |
| Server.ReloadScenario | chat-application/server.js:123-130 | a page reload (new socket identifies, then the old socket's disconnect) leaves the user online on the new socket, and a call reaches it |
| Client.LastOwnSent | chat-application/public/chat.js:94-97 | -1 exactly when no own `sent` message exists; otherwise the index of one with no own `sent` message after it |
| Client.FindLastIdx | chat-application/public/chat.js:94-97 | the marking loop ends with the index of the last own `sent` message, or -1 |
| Client.Mark | chat-application/public/chat.js:98-102 | one entry per message, in order; `isMe` exactly on own messages; `isLast` exactly at `lastIdx` when that message is own and `sent`, so on at most one entry |
| Client.MarkedIsLastOwnSent | chat-application/public/chat.js:94-102 | at most one message is marked, and a message is marked exactly when it is own, `sent`, and followed by no own `sent` message |
| Client.Render | chat-application/public/chat.js:29-82 | a deleted message shows only the placeholder; otherwise a delete button exactly on own messages, and an undo button exactly on own marked ones |
| Client.UndoButtonOnlyOnLastOwnSent | chat-application/public/chat.js:94-102 | in a fetched conversation the undo button is on exactly the last own `sent` message, and deleted messages show the placeholder |
| Client.MarkAgreesWithUndoTarget | chat-application/public/chat.js:94-102 | the fetched history has a marked message exactly when the server has an undo target; the marked one matches the server's query and is as new as the target |
| Client.LastOwnSentIsLatestUndoable | chat-application/public/chat.js:94-97 | in any time-sorted list whose own `sent` messages are exactly the undoable ones, the marked index agrees with the undo target |
| Client.OwnSentInHistory | chat-application/public/chat.js:96 | the history's own `sent` messages are exactly the table's messages the undo query matches |
| Client.ShowsLive | chat-application/public/chat.js:110-111 | a push is shown exactly when it goes between the current user and the open contact, in the sense of the history query's filter |
| Client.LiveFilterMatchesHistory | chat-application/public/chat.js:108-113 | a pushed message is rendered exactly when its saved record is in the open conversation's history |
| Client.IsSpace | chat-application/public/chat.js:127 | within ASCII, exactly the space and the controls tab to carriage return; no character above U+FEFF |
| Client.LeadingSpace | chat-application/public/chat.js:127 | the length of the leading white space: all white, followed by a non-white character or the end |
| Client.TrailingSpace | chat-application/public/chat.js:127 | the same for the trailing white space |
| Client.Trim | chat-application/public/chat.js:127 | empty exactly when the input is all white space; otherwise it neither starts nor ends with white space and is the input between its leading and its trailing white space |
| Client.ComposeText | chat-application/public/chat.js:127-128 | nothing is sent exactly when the input is empty or all white space; otherwise exactly `Trim` of the input, which neither starts nor ends with white space |
| Client.Submit | chat-application/public/chat.js:125-163 | white-space input changes nothing; other input stores two records of the trimmed text and pushes the relayed record to the contact and then to the sender, each when online |
| Client.Send | chat-application/public/chat.js:136-153 | the REST create and then the socket `message` handler each append one record; the outbox gains exactly the handler's pushes of the second record, to the contact and then to the sender, each when online |
| Client.SubmittedTextListedTwice | chat-application/public/chat.js:136-153 | both records of one submit are distinct and in the conversation's history |
| Client.DeclineAnswer | chat-application/public/chat.js:366 | the answer the decline button sends makes the caller end the call |
| Client.OnAnswerMade | chat-application/public/chat.js:371-378 | the call ends exactly when the answer is missing; otherwise the answer is applied as received |
| Client.DeclineEndsCall | chat-application/public/chat.js:364-367 | a decline relayed by the server reaches the caller exactly when the caller is online, and then ends the call |
| Accounts.FindByEmail | chat-application/controllers/authController.js:13 | the first user with the email, none exactly when there is none |
| Accounts.RegisterDecision | chat-application/controllers/authController.js:9-18 | 400 "All fields are required" exactly when a field is missing; 400 "Email already in use" exactly when a user has the email; no other failure; otherwise a new user with a fresh email and the hashed password |
| Accounts.Login | chat-application/controllers/authController.js:28-41 | 400 "All fields are required" exactly for a missing field; no other failure than that and "Invalid credentials", which comes exactly when the email is unknown or the password does not match; success answers the user with that email |
| Accounts.UnknownEmailLooksLikeWrongPassword | chat-application/controllers/authController.js:32-39 | an unknown email and a wrong password get the same reply |
| Accounts.RegisterThenLogin | chat-application/controllers/authController.js:9-41 | logging in right after registering, with the same email and password, answers the new user |
| Accounts.UserStore.Register | chat-application/controllers/authController.js:9-20 | a refused registration creates no user; an accepted one appends exactly the new user; emails stay unique |
| Accounts.WithContact | chat-application/controllers/authController.js:70-71 | the old list with the id appended exactly when it was absent; its members are the old ones and the id |
| Accounts.WithoutContact | chat-application/controllers/authController.js:86 | every entry equal to the id goes; every other entry stays, as many times as before |
| Accounts.AddContactProperties | chat-application/controllers/authController.js:70-73 | adding is idempotent, never creates a duplicate, keeps the old entries in place and at most appends the id |
| Accounts.WithoutContactDistributes | chat-application/controllers/authController.js:86 | removal keeps the order of what it keeps: it distributes over concatenation |
| Accounts.WithoutAbsentContact | chat-application/controllers/authController.js:86 | removing an absent id changes nothing |
| Accounts.RemoveUndoesAdd | chat-application/controllers/authController.js:70-86 | removing a contact that was just added restores the list |
| Accounts.RemoveKeepsNoDuplicates | chat-application/controllers/authController.js:86 | removal keeps a duplicate-free list duplicate-free |
| Accounts.Account.AddContact | chat-application/controllers/authController.js:67-74 | 400 "contactId required" with no change without the id; otherwise the list becomes the id appended unless present |
| Accounts.Account.RemoveContact | chat-application/controllers/authController.js:83-88 | 400 "contactId required" with no change without the id; otherwise the list without every entry equal to it |
| Accounts.FindProfile | chat-application/controllers/authController.js:50 | a user with the id, none exactly when there is none |
| Accounts.GetContacts | chat-application/controllers/authController.js:50-57 | no more entries than contacts; each entry is for one of the contacts, shows the name and email of the user it names, and is offline |
| Accounts.GetContactsOfOne | chat-application/controllers/authController.js:50-57 | a single contact id gives one entry, for that id, when it names a user, and none otherwise |
| Accounts.GetContactsDistributes | chat-application/controllers/authController.js:50-57 | listing a concatenation of contact lists lists each part, so the reply follows the stored order |
| Accounts.GetContactsKeepsOrder | chat-application/controllers/authController.js:50-57 | when every contact id names a user, one entry per contact, in the stored order |

## Left out

- Transport, database and server setup are not modelled: Express routing, the Socket.io connection, the Mongoose connection, dotenv and start-up. The store is an in-memory sequence, and emits go to an outbox.
- Every `500 Server error` path is left out. The model's store never fails, and a missing authenticated user (`findById(req.user.id)` answering nothing) is not represented.
- Concurrency is not modelled. Each handler runs as one atomic step. The interleaving of handlers between `await` points is not captured.
- JWT signing, the auth middleware and token replies are not modelled. bcrypt becomes the `hash` and `matches` parameters.
- WebRTC and media code in the client is not modelled, including the ICE handling in the browser. Neither are DOM building, `moment` time formatting, `localStorage`, `fetch`, alerts, `public/auth.js` and the route files.
- `models/Message` and `models/User` are not part of this model. A new message is assumed to start as `sent`, since the undo query relies on it. Ids and timestamps are parameters.
- Messages.UndoTarget: among matching messages with equal `createdAt` it picks the last one stored. The database leaves that order unspecified.
- Messages.UndoDecision: the window test works on whole milliseconds. JavaScript's `(now - createdAt) / 1000 > 120` gives the same answer there.
- Client.Send: it models only the two creates. The locally rendered copy of the message and the clearing of the input box are not modelled.
- Client.IsSpace: it follows the white-space and line-terminator set of `String.prototype.trim`. No other Unicode processing is modelled.
- Accounts.Account.AddContact: it compares ids as strings. Mongoose's casting of `contactId` to an ObjectId inside `includes` is not modelled.
- Accounts.Account: it models only the contact list of an already loaded user document. The `findById` load and `save` are not modelled.
- Accounts.GetContacts: it takes the users collection as a parameter. Populating a contact id that names no user drops it, and the order of the rest is kept.
