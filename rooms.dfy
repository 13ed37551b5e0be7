/**
 * The room table of socket.io's default adapter (`io.sockets.adapter.rooms`),
 * which the server reads in `send-file` and changes through `socket.join` and
 * disconnection (server/index.js:49-70). A room is a name mapped to the set of
 * socket ids in it; the adapter creates a room on its first join and deletes it
 * when its last member leaves, so a room in the table is never empty.
 */
module Rooms {

  /** A socket's `socket.id`: a string, which is also the name of its own room. */
  type SocketId = string

  /** A room name; the server joins each socket to the room named by a username. */
  type RoomName = string

  type RoomTable = map<RoomName, set<SocketId>>

  /** The adapter's invariant: rooms exist only while they have members. */
  predicate WellFormed(rooms: RoomTable) {
    forall r :: r in rooms ==> rooms[r] != {}
  }

  /** The sockets in room `r`; none when the room does not exist. */
  function Members(rooms: RoomTable, r: RoomName): set<SocketId> {
    if r in rooms then rooms[r] else {}
  }

  /** `socket.join(r)`: adds the socket to room `r`, creating the room if needed. */
  function Join(rooms: RoomTable, s: SocketId, r: RoomName): (j: RoomTable)
    ensures r in j && Members(j, r) == Members(rooms, r) + {s}
    ensures forall q :: q != r ==> (q in j <==> q in rooms) && Members(j, q) == Members(rooms, q)
  {
    rooms[r := Members(rooms, r) + {s}]
  }

  /** What socket.io does when a socket connects: it joins the room named by its own id. */
  function Connect(rooms: RoomTable, s: SocketId): (c: RoomTable)
    ensures s in c && Members(c, s) == Members(rooms, s) + {s}
    ensures forall q :: q != s ==> (q in c <==> q in rooms) && Members(c, q) == Members(rooms, q)
  {
    Join(rooms, s, s)
  }

  /** What socket.io does when a socket disconnects: it leaves every room, and a room
   *  left without members is deleted. */
  function Close(rooms: RoomTable, s: SocketId): (c: RoomTable)
    ensures WellFormed(c)
    ensures forall q :: Members(c, q) == Members(rooms, q) - {s}
  {
    map q | q in rooms && rooms[q] - {s} != {} :: rooms[q] - {s}
  }

  /** On a well-formed table, a room exists exactly when it has a member. */
  lemma ExistsIffMember(rooms: RoomTable, r: RoomName)
    requires WellFormed(rooms)
    ensures r in rooms <==> Members(rooms, r) != {}
  {
  }

  /** Joining and closing both keep rooms non-empty. */
  lemma JoinKeepsWellFormed(rooms: RoomTable, s: SocketId, r: RoomName)
    requires WellFormed(rooms)
    ensures WellFormed(Join(rooms, s, r))
  {
  }

  /** Joining a room twice is the same as joining it once: a socket is never in a room twice. */
  lemma JoinIdempotent(rooms: RoomTable, s: SocketId, r: RoomName)
    ensures Join(Join(rooms, s, r), s, r) == Join(rooms, s, r)
  {
  }

  /** After a close the socket is in no room and every other socket is where it was. */
  lemma CloseRemovesOnlyThatSocket(rooms: RoomTable, s: SocketId, t: SocketId, r: RoomName)
    requires t != s
    ensures s !in Members(Close(rooms, s), r)
    ensures t in Members(Close(rooms, s), r) <==> t in Members(rooms, r)
  {
  }

  /** A socket that was in no room, joined and then disconnected, leaves the table as it was. */
  lemma CloseUndoesJoin(rooms: RoomTable, s: SocketId, r: RoomName)
    requires WellFormed(rooms)
    requires forall q :: q in rooms ==> s !in rooms[q]
    ensures Close(Join(rooms, s, r), s) == rooms
  {
    var c := Close(Join(rooms, s, r), s);
    forall q
      ensures q in c <==> q in rooms
      ensures q in c ==> c[q] == rooms[q]
    {
      assert Members(c, q) == Members(rooms, q);
    }
  }

  /** Disconnecting forgets every room the socket joined: joining a room just before
   *  closing makes no difference to the table that remains. */
  lemma CloseAfterJoin(rooms: RoomTable, s: SocketId, r: RoomName)
    ensures Close(Join(rooms, s, r), s) == Close(rooms, s)
  {
    var a, b := Close(Join(rooms, s, r), s), Close(rooms, s);
    forall q
      ensures q in a <==> q in b
      ensures q in a ==> a[q] == b[q]
    {
      assert Members(a, q) == Members(b, q);
    }
  }

  /** The lifecycle of one socket: it connects, joins the room of a username and
   *  disconnects. A socket id that was in no room leaves the table exactly as it was. */
  lemma ConnectJoinCloseRestores(rooms: RoomTable, s: SocketId, r: RoomName)
    requires WellFormed(rooms)
    requires forall q :: q in rooms ==> s !in rooms[q]
    ensures Close(Join(Connect(rooms, s), s, r), s) == rooms
  {
    CloseAfterJoin(Connect(rooms, s), s, r);
    CloseUndoesJoin(rooms, s, s);
  }
}
