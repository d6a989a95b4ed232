# Chat relay hub and client roster, modelled in Dafny

This project models the real-time core of a one-to-one chat application.
The server keeps a WebSocket registry (`wss.clients`) of open connections and
reads the login token from each new connection's `Cookie` header. It attaches
the identity the token carries and then broadcasts a presence frame to every
client. Its message handler validates `{recipient, text}` frames, appends each
valid one to the message store, and then forwards it with its store id to the
recipient's connections. The `/messages/:userId` query lists the stored
messages of a conversation. On the browser side, the chat page turns presence
frames into an online roster keyed by user id and hides the user's own id from
it.

Files and modules:

- `protocol.dfy` (`Protocol`): identities, presence entries, frames, stored messages, JavaScript truthiness of strings.
- `cookie.dfy` (`CookieToken`): `split`, `find`/`startsWith`, and the token extraction of the connection handler.
- `conversation.dfy` (`Conversation`): the `/messages/:userId` filter and ordering, and its corrected form.
- `hub.dfy` (`ConnectionHub`): the `Hub` class, which holds the registry, the message store and the two handlers.
- `chat.dfy` (`ChatView`): the `Chat` class, which holds the roster state and its reducers.
- `endtoend.dfy` (`EndToEnd`): properties that link a presence broadcast to the roster it produces, and a forwarded message to the stored conversation.

Modelling decisions:

- Each handler invocation is one atomic step of a single-threaded event loop. A handler returns its sends as an outbox of `Send(target, frame)` in the order the `send` calls happen. Connections are named by a `handle` that stands for the socket object.
- `jwt.verify` with the server secret is the `verify: string -> Option<Identity>` the `Hub` is built with. With a string secret and a callback, `jsonwebtoken` calls the callback synchronously. So the identity is attached before the presence broadcast, and the model does the same.
- A failed verification runs `throw err` inside that callback, which leaves the connection handler. The model stops the handler there (`Handshake.Rejected`). The connection stays in the registry, anonymous and without a message listener, and no presence frame is sent.
- The message store is a sequence: a message's index is its id, and index order is creation order. The query's `sort({created: 1})` is taken to return that order (see "## Left out").
- JSON frames are datatypes. `undefined` fields are `None`. On the client, `people[undefined]` uses the key `"undefined"` (`ChatView.KeyOf`).
- Socket closing belongs to the `ws` library, not to this code. `Hub.Drop` models it: the registry loses the socket and nothing is broadcast.

What the code does, and the model with it:

- The presence list is neither deduplicated nor limited to identified connections: a user with two sockets appears twice, and an anonymous socket appears with no id and no name.
- There is no heartbeat, eviction, close-time broadcast, attachment, optimistic send or reconnect.
- A frame without a recipient or a text is dropped silently; no error is sent back.

## Model

| member | source | states |
|---|---|---|
| `CookieToken.TokenFromCookie` | server/index.js:171-191 | the token handed to `jwt.verify` comes from a present header, is non-empty and has no `=`; `TokenFromCookieSound` and `TokenFromCookieComplete` state that it is exactly the token `IsTokenOf` describes |
| `CookieToken.Split` | server/index.js:173-174 | `split(";")` gives at least one piece, no piece contains the separator, and joining the pieces with it gives the header back |
| `CookieToken.SplitAtFirst` | server/index.js:190 | the first separator ends the first piece; the rest of the string is split on its own |
| `CookieToken.FindFirst` | server/index.js:173-175 | `find(str => str.startsWith("token="))` returns a piece with that prefix, and no earlier piece has it; it returns nothing exactly when no piece has it |
| `CookieToken.FindFirstAt` | server/index.js:173-175 | when piece i is the first with the prefix, `find` returns piece i |
| `CookieToken.TokenOfPiece` | server/index.js:190 | for a piece starting with `token=`, `split("=")[1]` is the text after `token=` up to the next `=` |
| `CookieToken.HeadIsPieceToken` | server/index.js:190 | for a piece starting with `token=`, the text after `token=` up to the next `=` is followed by `=` or by the end of the piece |
| `CookieToken.PieceTokenUnique` | server/index.js:190 | a piece has at most one token: a `=`-free text that follows `token=` and ends at a `=` or at the end of the piece |
| `CookieToken.PieceTokenExact` | server/index.js:190 | for a piece starting with `token=`, `split("=")[1]` is `t` if and only if `t` is that piece's token in the sense above |
| `CookieToken.TokenFromCookieSound` | server/index.js:171-191 | an extracted token is non-empty and has no `=`; it follows `token=` in the first piece that starts with `token=`, and it ends at the next `=` or at the end of that piece |
| `CookieToken.TokenFromCookieComplete` | server/index.js:171-191 | the converse: every token that description fits is the one extracted |
| `CookieToken.NoTokenCases` | server/index.js:171-199 | no header, no piece starting with `token=`, or an empty text after `token=` (the piece is `token=` or `token==…`): no token is verified |
| `CookieToken.LeadingSpaceNeverMatches` | server/index.js:175 | pieces are not trimmed, so a piece with a leading space never matches `token=` |
| `CookieToken.SpacedTokenIsMissed` | server/index.js:173-175 | in any header `a; token=b`, where the first cookie does not start with `token=`, the token is missed: the second piece starts with a space |
| `CookieToken.SpacedHeaderHasNoToken` | server/index.js:173-175 | the header `a=1; token=x`, as browsers send it, yields no token |
| `CookieToken.TokenStopsAtSecondEquals` | server/index.js:190 | in `token=t=more;tail`, with a non-empty `t` free of `=` and `;`, the token is `t`: the text after a second `=` is dropped |
| `ConnectionHub.HandshakeOf` | server/index.js:171-199 | the outcome of the connection handler's cookie part; `HandshakeByToken` states it in terms of the header |
| `ConnectionHub.HandshakeByToken` | server/index.js:171-199 | no header, or a header with no token that `IsTokenOf` describes, leaves the connection anonymous, and only then; with such a token, the connection gets the payload `verify` returns for it, or the handler stops when verification fails |
| `ConnectionHub.Admitted` | server/index.js:192-201 | the connection record the handler leaves: a verified token's identity attached, and the message listener registered unless verification threw first; `Hub.Connect` states it as the new registry entry |
| `ConnectionHub.Hub.constructor` | server/index.js:20-25 | a started server has an empty socket registry; its message store is whatever the database collection already holds |
| `ConnectionHub.Hub.Connect` | server/index.js:169-232 | the new socket joins the end of the registry with a fresh handle. It gets the identity of a verified token, or none when there is no token. Unless verification fails, every registered connection, including anonymous ones, receives one presence frame listing all connections. The store is unchanged |
| `ConnectionHub.Hub.OnMessage` | server/index.js:201-219 | a frame from a listening connection whose recipient or text is missing or empty changes nothing and sends nothing. A valid frame appends exactly one record `{sender: userId, recipient, text}`. Only after that does the frame carrying that record's store id go to the recipient's connections |
| `ConnectionHub.Hub.SendToAll` | server/index.js:223-232 | the send loop over `wss.clients` produces `Broadcast`: one send per connection, in registry order |
| `ConnectionHub.Hub.SendToUser` | server/index.js:210-217 | the filter-and-send loop produces `Forwards`: the frame goes to the connections with `userId === recipient` |
| `ConnectionHub.OnlineList` | server/index.js:226-229 | the `online` list has one entry per connection, in registry order, so its length is the number of connections; anonymous entries and a user's repeated entries are included |
| `ConnectionHub.Broadcast` | server/index.js:223-232 | one send per connection, the k-th to the k-th connection of the registry, every one carrying the same frame |
| `ConnectionHub.Forwards` | server/index.js:210-217 | no more sends than connections, every one carrying the same frame to a connection whose `userId` is the recipient; `ForwardsReachMatchingOnce` adds that each such connection gets exactly one |
| `ConnectionHub.BroadcastReachesEachOnce` | server/index.js:223-232 | each registered connection receives exactly one presence frame; no other socket receives one |
| `ConnectionHub.ForwardsReachMatchingOnce` | server/index.js:210-212 | a forwarded message reaches exactly the connections whose `userId` equals the recipient, one frame each; with no such connection nothing is sent and there is no error |
| `ConnectionHub.OthersGetNothing` | server/index.js:210-212 | a connection of any other user gets nothing; so the sender's own devices get nothing unless the sender writes to itself |
| `ConnectionHub.Hub.Drop` | server/index.js:168 | when the `ws` server drops a closed socket, the registry loses exactly that socket and keeps every other one, and nothing is sent or stored |
| `ConnectionHub.Without` | server/index.js:168 | the registry less one handle holds every other connection and no connection with that handle, and handles stay unique |
| `ConnectionHub.Find` | server/index.js:201-206 | the message listener acts for the registered connection with the given handle |
| `Conversation.Select` | server/index.js:87-90 | a filtered listing of the store holds only stored, accepted messages at their ids, in strictly increasing id order |
| `Conversation.SelectComplete` | server/index.js:87-90 | every accepted stored message is in the listing |
| `Conversation.SelectAppend` | server/index.js:87-90 | appending a message to the store appends it to the listing exactly when it is accepted |
| `Conversation.ConversationBetween` | server/index.js:87-90 | the query's result holds stored messages at their ids whose sender and recipient are both in {u, me}, in ascending id order; `ConversationBetweenExact` adds that none is missing |
| `Conversation.ConversationBetweenExact` | server/index.js:87-90 | `/messages/:userId` returns exactly the stored messages with sender in {u, me} and recipient in {u, me}, in ascending creation order |
| `Conversation.PersistedMessageIsListed` | server/index.js:87-90 | a message persisted from me to u becomes the newest entry of the query's result, with its store id |
| `Conversation.ConversationLeaksOthersNotes` | server/index.js:87-90 | as written, the query shows alice a note that bob addressed to bob |
| `Conversation.PairConversation` | server/index.js:87-90 | the corrected result holds stored messages at their ids that one of the pair wrote to the other, in ascending id order |
| `Conversation.PairConversationExact` | server/index.js:87-90 | the corrected filter keeps exactly the messages me→u and u→me, in creation order; it equals the written query's result less the self-addressed notes |
| `Conversation.PersistedMessageInPair` | server/index.js:87-90 | a message persisted from me to u becomes the newest entry of the corrected conversation |
| `ChatView.ExcludeSelf` | client/src/Chat.jsx:35-38 | the displayed roster has the roster's keys less the own id, and every other key keeps its username |
| `ChatView.RosterOf` | client/src/Chat.jsx:16-28 | the object `showOnlinePeople` builds: every value is the username of a presence entry with that key; `RosterKeys` and `RosterLastWins` say which keys and which entry |
| `ChatView.RosterKeys` | client/src/Chat.jsx:23-26 | the roster's keys are exactly the user ids of the presence list (`undefined` as `"undefined"`), each once |
| `ChatView.RosterSize` | client/src/Chat.jsx:23-26 | the roster has at most as many keys as the presence list has entries |
| `ChatView.RosterLastWins` | client/src/Chat.jsx:24-26 | when a user id appears several times, the username of its last occurrence wins |
| `ChatView.MultiDeviceCollapses` | client/src/Chat.jsx:23-26 | several devices of one user become one roster entry, carrying the last device's username |
| `ChatView.Chat.constructor` | client/src/Chat.jsx:8-10 | the page starts with an empty roster and knows its own user id |
| `ChatView.Chat.ShowOnlinePeople` | client/src/Chat.jsx:16-28 | the key-assigning loop makes the roster of the presence list the new state; nothing of the previous roster survives |
| `ChatView.Chat.HandleMessage` | client/src/Chat.jsx:29-34 | a presence frame replaces the roster wholesale; a frame without `online`, such as a routed message, leaves it unchanged |
| `ChatView.Chat.OnlinePeopleExclOurUser` | client/src/Chat.jsx:35-38 | the copy-and-delete gives the roster less exactly the own id; the roster itself is not modified |
| `EndToEnd.PresenceRoster` | server/index.js:222-232 | a client that receives a presence broadcast has one roster key per distinct user id in the registry, and a user's name is that of its last connection |
| `EndToEnd.AnonymousShowsAsUndefined` | client/src/Chat.jsx:24-26 | an anonymous connection in the registry shows up in every client's roster under the key `"undefined"`, with no username |
| `EndToEnd.ForwardedMessageIsRetrievable` | server/index.js:205-217 | every forwarded frame's id points to the stored record of that message. That record is the newest entry of the pair's conversation, both as queried and as intended |

## Left out

- HTTP routes `/`, `/profile`, `/people`, `/register` and `/login`. These are Express, bcrypt, JWT signing and database calls.
- The `getUserDataFromRequest` step of `/messages/:userId`. The requesting user's id `me` is a parameter of the filter.
- The database connection setup and `server/db.js`. These are I/O and logging.
- JWT verification. It is cryptography inside a library, so it is the abstract `verify` function.
- What Node does with the exception thrown on a failed verification: an uncaught exception ends the process. The model only stops the handler.
- JSON parsing and serialisation of frames. A malformed frame makes `JSON.parse` throw, and the model does not cover that. Frame fields are either strings or absent, so non-string JSON values and their truthiness are not modelled.
- `Protocol.Identity`: a verified token is taken to carry both `userId` and `username`. A payload without them would give a verified but unnamed connection, which the model does not cover.
- The WebSocket transport, and interleavings between concurrent `await Message.create` calls. Each handler runs as one atomic step.
- `Message.create` failures. A failed write rejects the handler's promise before any forward. The model assumes writes succeed.
- The order of `Object.keys` in the displayed roster. JavaScript lists integer-like keys first, then the others in insertion order. A Dafny map has no order, so the roster's order is not modelled.
- The `Message` schema (`server/models/Message.js`) is not part of this model. The query sorts on `created`, and the model assumes that field is the creation time, so the store's append order is the sort order. If the field were missing, every document would tie and the database would not fix their order.
- ConnectionHub.Forwards: its contract does not state that the sends follow registry order; only its definition shows it, and no property here depends on that order.
- ConnectionHub.Without: its contract does not state that the remaining sockets keep their relative order; only its definition shows it.
- Special object keys such as `__proto__`.
- React rendering, UI state, the selected peer, `RegisterAndLoginForm.jsx` and `Register.jsx`. These are UI and HTTP calls.
- Heartbeat, eviction, reconnect, attachments, optimistic sends and deduplication buffers. The code has none of them.

## Findings

| source | as written | input that shows it | evidently intended | confidence | as-written member | corrected member |
|---|---|---|---|---|---|---|
| server/index.js:87-90 | the conversation filter is sender ∈ {u, me} and recipient ∈ {u, me}, so it also matches u→u and me→me messages | store holds bob→bob "note to self"; alice requests `/messages/bob` and receives that note | only the messages one of the pair sent to the other: me→u or u→me | medium; not executed | `Conversation.ConversationLeaksOthersNotes` | `Conversation.PairConversationExact` |
