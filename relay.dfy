/**
 * The `send-file` socket handler (server/index.js:55-64): a delivery decision on
 * the room table, one `receive-file` emission to the target room, and an
 * acknowledgment through the optional callback.
 */
module Relay {
  import opened Wrappers
  import opened Rooms

  /** The `file` the client sends: the `{ filename, buffer }` the upload route returned. */
  datatype Payload = Payload(filename: string, buffer: seq<bv8>)

  /** `io.to(room).emit('receive-file', { file, from })`. */
  datatype Event = ReceiveFile(room: RoomName, file: Payload, from: SocketId)

  /** What one `send-file` call produces: the value passed to the callback, if one was
   *  supplied (`Some(success)`), and the events emitted, in order. */
  datatype SendOutcome = SendOutcome(ack: Option<bool>, emitted: seq<Event>)

  /** `io.sockets.adapter.rooms.has(to)`. */
  predicate Deliverable(rooms: RoomTable, to: RoomName)
    ensures WellFormed(rooms) ==> (Deliverable(rooms, to) <==> Members(rooms, to) != {})
  {
    to in rooms
  }

  /** The handler run by socket `sender` for `{ file, to }`; `hasCallback` says whether the
   *  client supplied an acknowledgment callback. */
  function SendFile(rooms: RoomTable, sender: SocketId, file: Payload, to: RoomName, hasCallback: bool): (o: SendOutcome)
    ensures o.ack.Some? <==> hasCallback
    ensures o.ack == Some(true) ==> Deliverable(rooms, to)
    ensures o.ack == Some(false) ==> !Deliverable(rooms, to)
    ensures |o.emitted| == if Deliverable(rooms, to) then 1 else 0
    ensures forall e :: e in o.emitted ==> e == ReceiveFile(to, file, sender)
  {
    if Deliverable(rooms, to) then
      SendOutcome(if hasCallback then Some(true) else None, [ReceiveFile(to, file, sender)])
    else
      SendOutcome(if hasCallback then Some(false) else None, [])
  }

  /** The sockets an emitted event reaches: every member of its room at emission time. */
  function Receivers(rooms: RoomTable, e: Event): set<SocketId> {
    Members(rooms, e.room)
  }

  /** Success is acknowledged exactly when the target room has a member, and then the one
   *  `receive-file` event reaches every member of that room and carries the sender's
   *  socket id, not a username. */
  lemma SendFileDeliversIff(rooms: RoomTable, sender: SocketId, file: Payload, to: RoomName)
    requires WellFormed(rooms)
    ensures var o := SendFile(rooms, sender, file, to, true);
      (o.ack == Some(true) <==> Members(rooms, to) != {}) &&
      (o.ack == Some(false) <==> Members(rooms, to) == {})
    ensures var o := SendFile(rooms, sender, file, to, true);
      o.ack == Some(true) ==>
        o.emitted == [ReceiveFile(to, file, sender)] &&
        Receivers(rooms, o.emitted[0]) == Members(rooms, to) != {}
  {
    ExistsIffMember(rooms, to);
  }

  /** With no callback nothing is acknowledged, and the emissions are the same as with one. */
  lemma SendFileCallbackOnlyAcks(rooms: RoomTable, sender: SocketId, file: Payload, to: RoomName)
    ensures SendFile(rooms, sender, file, to, false).ack == None
    ensures SendFile(rooms, sender, file, to, false).emitted == SendFile(rooms, sender, file, to, true).emitted
  {
  }
}
