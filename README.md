# File-transfer relay server: a Dafny model

This project models the server of a small file-transfer application and the tally
its client plots.

- **Accounts.** The server keeps registered users in an in-memory list of
  `{ username, password hash }` records. `POST /api/register` refuses a username
  already in the list with 400 "User already exists". Otherwise it appends one
  record with the bcrypt hash of the password. `POST /api/login` looks the username
  up and checks the password against the stored hash. On success it returns a JWT
  for that username, and otherwise 401 "Invalid credentials".
- **Rooms.** Every socket is kept in socket.io's room table, a map from room name
  to the set of socket ids in it. On connection, socket.io puts each socket in a
  room named by its own id. The `join` handler adds the socket to the room named by
  a username. On disconnection, socket.io removes the socket from every room and
  deletes rooms left empty. The server's own `disconnect` handler only logs.
- **Relay.** The `send-file` handler acknowledges `{ success: true }` exactly when
  a room named `to` exists. In that case it first emits one `receive-file` event
  `{ file, from }` to that room, and every member of the room receives it. `from` is
  the sending socket's id, not a username. Otherwise it acknowledges
  `{ success: false }` and emits nothing. The acknowledgment is sent only when the
  client supplied a callback. The handler changes no state.
- **Transfer chart.** The client counts its transfer history three ways:
  `sent` (delivered, with a non-empty sender), `received` (delivered, with a
  non-empty recipient) and `failed` (status other than `Delivered`). It plots them
  in the order Sent, Received, Failed.

The code has no presence tracking, no transfer ledger and no resolution of a
socket's username. The model follows the code on all three points. Because every
socket sits in the room named by its own id, a `send-file` whose `to` is the id of a
connected socket also succeeds. The model keeps this library behaviour (`Rooms.Connect`).

Layout: `wrappers.dfy` (Option), `crypto.dfy` (symbolic bcrypt and JWT),
`accounts.dfy` (the user list and the two HTTP handlers as functions),
`rooms.dfy` (the room table), `relay.dfy` (`send-file`), `server.dfy` (the
server object with one method per handler, plus the same server as a state
machine over request traces), `transfer_chart.dfy` (the tally).

bcrypt and JWT are symbolic. `Hash(pw)` is a term that records the password and the
cost factor 8. `Verify(pw, h)` holds exactly when `h == Hash(pw)`. A token records the
username, the secret and the one-hour lifetime.

## Model

| member | source | states |
|---|---|---|
| Accounts.IndexOf | server/index.js:29 | `users.find` by username stops at the first record with that name; it finds nothing exactly when no record has the name |
| Accounts.FindUser | server/index.js:40 | the record found carries the requested username and is in the list; none is found exactly when the name is unregistered |
| Accounts.Login | server/index.js:38-46 | login answers either 401 "Invalid credentials" or 200 with a token signed for the requested username |
| Accounts.Register | server/index.js:27-35 | the answer is 400 "User already exists" exactly when the name is registered, otherwise "Registration successful"; the list grows by one record exactly on success |
| Accounts.RegisterRefusesDuplicate | server/index.js:29-31 | registering a name already present answers 400 "User already exists" and leaves the list unchanged |
| Accounts.RegisterAppendsNew | server/index.js:32-34 | registering a new name answers "Registration successful" and appends exactly one record with that name and the hash of the password, leaving earlier records as they were |
| Accounts.RegisterKeepsUnique | server/index.js:29-33 | registration keeps usernames pairwise distinct, and afterwards the name is registered |
| Accounts.LoginSucceedsIff | server/index.js:40-45 | with distinct usernames, login succeeds iff some record has that name and its hash verifies the password; every failure is the 401 response |
| Accounts.IndexOfAppend | server/index.js:33 | after a push, `find` gives the old answer when there was one, else the new record when it matches, else nothing |
| Accounts.RegisterThenLogin | server/index.js:27-46 | after a new user registers, login with the same password returns their token, any other password gets 401, and every other username logs in as before |
| Crypto.Hash | server/index.js:32 | the stored hash is made with cost factor 8 |
| Crypto.Verify | server/index.js:41 | a hash verifies a password only if it was made from that password with cost factor 8 |
| Crypto.Sign | server/index.js:44 | the token carries the username, is signed with the server's secret and lasts one hour |
| Crypto.VerifyExactlyOwnPassword | server/index.js:41 | a stored hash verifies the password it was made from and no other |
| Rooms.Join | server/index.js:67 | `socket.join(r)` puts the socket in room `r`, which then exists; every other room keeps its existence and members |
| Rooms.Connect | server/index.js:49 | a connecting socket is added to the room named by its own id, which then exists and keeps its other members; every other room keeps its existence and members |
| Rooms.Close | server/index.js:51-53 | on disconnection every room loses exactly that socket, and no empty room remains |
| Rooms.ExistsIffMember | server/index.js:57 | in a table without empty rooms, `rooms.has(r)` holds iff room `r` has a member |
| Rooms.JoinKeepsWellFormed | server/index.js:67 | joining never leaves an empty room in the table |
| Rooms.JoinIdempotent | server/index.js:67 | joining the same room twice is the same as joining it once |
| Rooms.CloseRemovesOnlyThatSocket | server/index.js:51-53 | after disconnection the socket is in no room, and any other socket is in a room iff it was before |
| Rooms.CloseUndoesJoin | server/index.js:51-69 | a socket that was in no room, joined to a room and then disconnected, leaves the table exactly as it was |
| Rooms.CloseAfterJoin | server/index.js:51-69 | for any table, socket and room, joining just before disconnecting leaves the same table as disconnecting alone |
| Rooms.ConnectJoinCloseRestores | server/index.js:49-69 | a socket id in no room that connects, joins the room of a username and disconnects leaves the table exactly as it was |
| Relay.Deliverable | server/index.js:57 | on a table without empty rooms, `rooms.has(to)` holds iff room `to` has a member |
| Relay.SendFile | server/index.js:55-64 | an ack is given iff a callback was supplied, and it is success iff the room `to` exists; exactly one `receive-file` to `to` carrying the file and the sender's socket id is emitted when the room exists, none otherwise |
| Relay.SendFileDeliversIff | server/index.js:57-60 | success is acknowledged iff the room `to` has a member, and then the single emitted event reaches every member of that room |
| Relay.SendFileCallbackOnlyAcks | server/index.js:58-63 | without a callback nothing is acknowledged, and the emissions are those of a call with one |
| Server.Server.constructor | server/index.js:19 | the process starts with no users and no rooms |
| Server.Server.Register | server/index.js:27-35 | the register handler's new list and response are those of `Accounts.Register`, the rooms are unchanged, and distinct usernames are kept |
| Server.Server.Login | server/index.js:38-46 | the login handler answers `Accounts.Login` on the current list and changes nothing |
| Server.Server.Connect | server/index.js:49 | a connection changes only the rooms, by `Rooms.Connect` |
| Server.Server.Join | server/index.js:66-69 | the `join` handler changes only the rooms, by `Rooms.Join` |
| Server.Server.SendFile | server/index.js:55-64 | the `send-file` handler returns the ack and emissions of `Relay.SendFile` and changes neither rooms nor users |
| Server.Server.Disconnect | server/index.js:51-53 | a disconnection changes only the rooms, by `Rooms.Close` |
| Server.Step | server/index.js:27-69 | only registration changes `users`; registration, login and `send-file` leave the rooms unchanged |
| Server.StepKeepsInvariant | server/index.js:27-69 | every handler keeps usernames distinct and rooms non-empty |
| Server.RunKeepsInvariant | server/index.js:19-70 | after any sequence of handler calls, usernames are pairwise distinct and every room has a member |
| TransferChart.Filter | src/TransferChart.jsx:7-9 | `history.filter(p)` keeps exactly the records `p` accepts, each as often as in the history, so its length is at most the history's |
| TransferChart.FilterEmptyIff | src/TransferChart.jsx:7-9 | `history.filter(p).length` is 0 iff `p` rejects every record |
| TransferChart.FilterFullIff | src/TransferChart.jsx:7-9 | `history.filter(p).length` is `history.length` iff `p` accepts every record |
| TransferChart.Sent | src/TransferChart.jsx:7 | `sent` is at most `history.length`; it is 0 iff no record is delivered with a non-empty sender, and `history.length` iff every record is |
| TransferChart.Failed | src/TransferChart.jsx:8 | `failed` is at most `history.length`; it is 0 iff every record is `Delivered`, and `history.length` iff none is |
| TransferChart.Received | src/TransferChart.jsx:9 | `received` is at most `history.length`; it is 0 iff no record is delivered with a non-empty recipient, and `history.length` iff every record is |
| TransferChart.Chart | src/TransferChart.jsx:10-17 | the labels are Sent, Received, Failed with one value each, and the failed value plus either of the other two is at most `history.length` |
| TransferChart.CountsAreFilterCounts | src/TransferChart.jsx:7-9 | `failed` counts the records not `Delivered`; `sent` and `received` count the delivered ones with a non-empty sender, resp. recipient; each is at most `history.length` |
| TransferChart.FailedDisjoint | src/TransferChart.jsx:7-9 | `sent + failed` and `received + failed` are each at most `history.length` |
| TransferChart.AllNamedSentEqualsReceived | src/TransferChart.jsx:7-9 | when every record has a non-empty sender and recipient, `sent == received == history.length - failed` |
| TransferChart.ChartPairsLabelsWithCounts | src/TransferChart.jsx:10-17 | the labels are Sent, Received, Failed, and each value is the count of the filter its label names |

## Left out

- Express, CORS, JSON body parsing and `server.listen`: transport plumbing.
- The `/api/upload` route and multer: they only echo the uploaded buffer and filename. The model takes that `{ filename, buffer }` as an opaque `Payload`.
- bcrypt and JWT internals. The hash is a symbolic term. It leaves out salting and bcrypt's 72-byte password limit. Token expiry is not checked anywhere in the server. `jwt.sign` also adds `iat` and `exp` claims taken from the clock; the model's token depends on the username alone, so two tokens for one username are equal. `Accounts.RegisterThenLogin` states that another user's login is unchanged as an equality of responses only because of this.
- Request bodies whose `username` or `password` is not a string: the model takes both as strings.
- A `send-file` callback that is truthy but not a function: the model only says whether a callback was supplied.
- Malformed socket messages: a `send-file` emitted with no payload or with `null` makes the destructuring of `{ file, to }` throw inside the handler, uncaught; and `socket.join` also accepts an array of rooms and joins each. The model takes a well-formed `Payload`, a string `to` and exactly one string room per `join`.
- Console logging, the disconnect `reason`, and socket.io's transport and asynchronous event scheduling. Each handler is one atomic step.
- Concurrency between handlers: the model is sequential.
- The React client (`src/App.jsx`), `src/Skeleton.jsx`, Chart.js registration, the dataset colours and the `<Bar>` rendering: presentation only.
