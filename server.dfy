/**
 * The server process of server/index.js: the `users` array and socket.io's room
 * table as the two fields of one object, with one method per handler. Each
 * method is specified by the pure handler functions of Accounts, Rooms and Relay.
 * The second half states the same server as a state machine over a trace of
 * requests and proves that its invariant survives any trace.
 */
module Server {
  import opened Wrappers
  import opened Crypto
  import opened Accounts
  import opened Rooms
  import opened Relay

  class Server {
    /** `const users = []` (server/index.js:19). */
    var users: seq<User>
    /** `io.sockets.adapter.rooms`. */
    var rooms: RoomTable

    ghost predicate Valid()
      reads this
    {
      UniqueUsernames(users) && WellFormed(rooms)
    }

    /** A freshly started process: no users, no rooms. */
    constructor ()
      ensures Valid() && users == [] && rooms == map[]
    {
      users := [];
      rooms := map[];
    }

    /** `POST /api/register`. */
    method Register(username: string, password: string) returns (response: Response)
      requires Valid()
      modifies this
      ensures Valid()
      ensures Handled(users, response) == Accounts.Register(old(users), username, password)
      ensures rooms == old(rooms)
    {
      RegisterKeepsUnique(users, username, password);
      var existing := FindUser(users, username);
      if existing.Some? {
        response := UserExists;
        return;
      }
      users := users + [User(username, Hash(password))];
      response := Registered;
    }

    /** `POST /api/login`; it has no `modifies` clause, so it changes nothing. */
    method Login(username: string, password: string) returns (response: Response)
      ensures response == Accounts.Login(users, username, password)
    {
      response := Accounts.Login(users, username, password);
    }

    /** A socket connects: socket.io puts it in the room named by its own id. */
    method Connect(socket: SocketId)
      requires Valid()
      modifies this
      ensures Valid()
      ensures rooms == Rooms.Connect(old(rooms), socket) && users == old(users)
    {
      rooms := Rooms.Connect(rooms, socket);
    }

    /** The `join` handler: `socket.join(username)`. */
    method Join(socket: SocketId, username: string)
      requires Valid()
      modifies this
      ensures Valid()
      ensures rooms == Rooms.Join(old(rooms), socket, username) && users == old(users)
    {
      rooms := Rooms.Join(rooms, socket, username);
    }

    /** The `send-file` handler; it has no `modifies` clause, so rooms and users stay. */
    method SendFile(socket: SocketId, file: Payload, to: RoomName, hasCallback: bool)
      returns (ack: Option<bool>, emitted: seq<Event>)
      ensures SendOutcome(ack, emitted) == Relay.SendFile(rooms, socket, file, to, hasCallback)
    {
      var outcome := Relay.SendFile(rooms, socket, file, to, hasCallback);
      ack, emitted := outcome.ack, outcome.emitted;
    }

    /** A socket disconnects: the handler only logs, and socket.io removes the socket from
     *  every room, deleting rooms it leaves empty. */
    method Disconnect(socket: SocketId)
      requires Valid()
      modifies this
      ensures Valid()
      ensures rooms == Close(old(rooms), socket) && users == old(users)
    {
      rooms := Close(rooms, socket);
    }
  }

  /** The whole server state as a value. */
  datatype State = State(users: seq<User>, rooms: RoomTable)

  /** One handler invocation. */
  datatype Request =
    | RegisterRequest(username: string, password: string)
    | LoginRequest(username: string, password: string)
    | ConnectRequest(socket: SocketId)
    | JoinRequest(socket: SocketId, room: RoomName)
    | SendFileRequest(socket: SocketId, file: Payload, to: RoomName, hasCallback: bool)
    | DisconnectRequest(socket: SocketId)

  /** What a handler sends back: an HTTP response, the outcome of a `send-file`, or nothing. */
  datatype Reply = HttpReply(response: Response) | SendReply(outcome: SendOutcome) | NoReply

  datatype Stepped = Stepped(state: State, reply: Reply)

  predicate Invariant(st: State) {
    UniqueUsernames(st.users) && WellFormed(st.rooms)
  }

  /** One handler run atomically on the state. Only registration touches `users`, and
   *  only connection, `join` and disconnection touch the rooms. */
  function Step(st: State, req: Request): (s: Stepped)
    ensures !req.RegisterRequest? ==> s.state.users == st.users
    ensures req.RegisterRequest? || req.LoginRequest? || req.SendFileRequest? ==> s.state.rooms == st.rooms
  {
    match req
    case RegisterRequest(u, p) =>
      var h := Accounts.Register(st.users, u, p);
      Stepped(State(h.users, st.rooms), HttpReply(h.response))
    case LoginRequest(u, p) =>
      Stepped(st, HttpReply(Accounts.Login(st.users, u, p)))
    case ConnectRequest(s) =>
      Stepped(State(st.users, Rooms.Connect(st.rooms, s)), NoReply)
    case JoinRequest(s, r) =>
      Stepped(State(st.users, Rooms.Join(st.rooms, s, r)), NoReply)
    case SendFileRequest(s, f, to, cb) =>
      Stepped(st, SendReply(Relay.SendFile(st.rooms, s, f, to, cb)))
    case DisconnectRequest(s) =>
      Stepped(State(st.users, Close(st.rooms, s)), NoReply)
  }

  /** The state after handling `reqs` in order. */
  function Run(st: State, reqs: seq<Request>): State
    decreases |reqs|
  {
    if reqs == [] then st else Run(Step(st, reqs[0]).state, reqs[1..])
  }

  lemma StepKeepsInvariant(st: State, req: Request)
    requires Invariant(st)
    ensures Invariant(Step(st, req).state)
  {
    match req
    case RegisterRequest(u, p) => RegisterKeepsUnique(st.users, u, p);
    case JoinRequest(s, r) => JoinKeepsWellFormed(st.rooms, s, r);
    case ConnectRequest(s) => JoinKeepsWellFormed(st.rooms, s, s);
    case _ =>
  }

  /** After any sequence of requests from the start state, usernames are pairwise distinct
   *  and every room has a member. */
  lemma {:induction false} RunKeepsInvariant(st: State, reqs: seq<Request>)
    requires Invariant(st)
    ensures Invariant(Run(st, reqs))
    decreases |reqs|
  {
    if reqs != [] {
      StepKeepsInvariant(st, reqs[0]);
      RunKeepsInvariant(Step(st, reqs[0]).state, reqs[1..]);
    }
  }

  /** What the class's specifications let a caller conclude: a file sent to a user who
   *  is offline fails, one sent after they join is delivered with the sender's socket id
   *  as `from`, and after they disconnect it fails again. */
  method Scenario(file: Payload)
  {
    var server := new Server();
    server.Connect("s1");
    server.Join("s1", "alice");
    var ack, emitted := server.SendFile("s1", file, "bob", true);
    assert ack == Some(false) && emitted == [];
    server.Connect("s2");
    server.Join("s2", "bob");
    ack, emitted := server.SendFile("s1", file, "bob", true);
    assert ack == Some(true) && emitted == [ReceiveFile("bob", file, "s1")];
    server.Disconnect("s2");
    assert Members(server.rooms, "bob") == {};
    ack, emitted := server.SendFile("s1", file, "bob", true);
    assert ack == Some(false);
  }
}
