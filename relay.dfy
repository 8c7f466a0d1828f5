/**
 * The server-side room registry and signalling relay of the video room.
 *
 * The registry maps a room id to the members of that room, each a connection sid
 * with the display name of its authenticated owner. Four socket handlers read and
 * change it: join, leave, signal and disconnect. Each handler is modelled twice:
 * as a pure transition on registry values (the functions below; the lemmas after
 * them say what each handler promises) and as a method of the class SignalingRelay,
 * which updates its fields in place and is proved to follow the transition.
 *
 * A handler's effect on the outside world is the list of messages it emits.
 * Broadcast recipients are resolved to the set of registry members they reach.
 */
module Relay {
  import opened Common

  type RoomId = string
  type Username = string
  /** The signalling data browsers exchange (offers, answers, ICE candidates); never inspected. */
  type Signal = string
  type Members = map<Sid, Username>
  type Rooms = map<RoomId, Members>

  datatype Event = ExistingPeers | PeerJoined | PeerLeft | RelayedSignal

  /** Who a message reaches: one connection, or a set of room members. */
  datatype Recipients = Direct(sid: Sid) | Broadcast(sids: set<Sid>)

  datatype Payload =
    | Snapshot(peers: Members)
    | PeerInfo(sid: Sid, username: Username)
    | SignalFrom(callerSid: Sid, signal: Signal, callerUsername: Username)

  datatype Outbound = Outbound(event: Event, to: Recipients, payload: Payload)

  /** The registry after a handler, and the messages it emitted, in emission order. */
  datatype Transition = Transition(rooms: Rooms, out: seq<Outbound>)

  /** The members of a room; a room not in the registry has none. */
  function RoomOf(rs: Rooms, room: RoomId): Members
  {
    if room in rs then rs[room] else map[]
  }

  /**
   * join: an unauthenticated caller is ignored. Otherwise the room is created empty
   * if absent, the joiner is sent the members as they were before it is inserted,
   * it is inserted (overwriting the name of an earlier join), and every other member
   * is told about it. JoinRegistry and JoinMessages state what this promises.
   */
  function Join(rs: Rooms, room: RoomId, sid: Sid, authenticated: bool, username: Username): Transition
  {
    if !authenticated then Transition(rs, [])
    else
      var before := RoomOf(rs, room);
      var after := before[sid := username];
      Transition(rs[room := after],
                 [Outbound(ExistingPeers, Direct(sid), Snapshot(before)),
                  Outbound(PeerJoined, Broadcast(after.Keys - {sid}), PeerInfo(sid, username))])
  }

  /**
   * leave: when the caller is a member of the room, that one entry is removed and
   * the remaining members are told, with the name the registry held. Otherwise
   * nothing happens. LeaveEffect states what this promises.
   */
  function Leave(rs: Rooms, room: RoomId, sid: Sid): Transition
  {
    if room in rs && sid in rs[room] then
      var username := rs[room][sid];
      var remaining := rs[room] - {sid};
      Transition(rs[room := remaining],
                 [Outbound(PeerLeft, Broadcast(remaining.Keys - {sid}), PeerInfo(sid, username))])
    else
      Transition(rs, [])
  }

  /**
   * signal: an unauthenticated caller is dropped; otherwise the payload is relayed
   * to the target connection. SignalEffect states what this promises.
   */
  function RelaySignal(rs: Rooms, sid: Sid, authenticated: bool, username: Username,
                       targetSid: Sid, signal: Signal): Transition
  {
    if !authenticated then Transition(rs, [])
    else Transition(rs, [Outbound(RelayedSignal, Direct(targetSid), SignalFrom(sid, signal, username))])
  }

  /** The first room of `order` whose members include sid. */
  function FirstRoomWith(order: seq<RoomId>, rs: Rooms, sid: Sid): (found: Option<RoomId>)
    ensures found.Some? ==>
      && found.value in rs && sid in rs[found.value]
      && exists i :: 0 <= i < |order| && order[i] == found.value
           && forall j | 0 <= j < i :: !(order[j] in rs && sid in rs[order[j]])
    ensures found.None? ==> forall j | 0 <= j < |order| :: !(order[j] in rs && sid in rs[order[j]])
  {
    if order == [] then None
    else if order[0] in rs && sid in rs[order[0]] then
      Some(order[0])
    else
      var rest := FirstRoomWith(order[1..], rs, sid);
      if rest.Some? then
        var i :| 0 <= i < |order[1..]| && order[1..][i] == rest.value
                 && forall j | 0 <= j < i :: !(order[1..][j] in rs && sid in rs[order[1..][j]]);
        assert order[i + 1] == rest.value;
        assert forall j | 0 <= j < i + 1 :: !(order[j] in rs && sid in rs[order[j]]) by {
          forall j | 0 <= j < i + 1 ensures !(order[j] in rs && sid in rs[order[j]]) {
            if j > 0 { assert order[j] == order[1..][j - 1]; }
          }
        }
        rest
      else
        assert forall j | 0 <= j < |order| :: !(order[j] in rs && sid in rs[order[j]]) by {
          forall j | 0 <= j < |order| ensures !(order[j] in rs && sid in rs[order[j]]) {
            if j > 0 { assert order[j] == order[1..][j - 1]; }
          }
        }
        rest
  }

  /**
   * disconnect: the rooms are scanned in `order` and sid is removed from the first one
   * holding it, whose remaining members are told. DisconnectEffect states what this promises.
   */
  function Disconnect(order: seq<RoomId>, rs: Rooms, sid: Sid): Transition
  {
    match FirstRoomWith(order, rs, sid)
    case None => Transition(rs, [])
    case Some(room) =>
      var remaining := rs[room] - {sid};
      Transition(rs[room := remaining],
                 [Outbound(PeerLeft, Broadcast(remaining.Keys), PeerInfo(sid, rs[room][sid]))])
  }

  /** What an insertion into a room does to the registry. */
  lemma InsertMember(rs: Rooms, room: RoomId, sid: Sid, username: Username)
    ensures var joined := rs[room := RoomOf(rs, room)[sid := username]];
      && joined.Keys == rs.Keys + {room}
      && joined[room].Keys == RoomOf(rs, room).Keys + {sid}
      && joined[room][sid] == username
      && |joined[room]| == |RoomOf(rs, room)| + (if sid in RoomOf(rs, room) then 0 else 1)
      && (forall s | s in RoomOf(rs, room) && s != sid :: joined[room][s] == RoomOf(rs, room)[s])
      && (forall r | r in rs && r != room :: joined[r] == rs[r])
  {
  }

  /** What removing a member from a room that holds it does to the registry. */
  lemma RemoveMember(rs: Rooms, room: RoomId, sid: Sid)
    requires room in rs && sid in rs[room]
    ensures var left := rs[room := rs[room] - {sid}];
      && left.Keys == rs.Keys
      && left[room].Keys == rs[room].Keys - {sid}
      && |left[room]| == |rs[room]| - 1
      && (forall s | s in left[room] :: left[room][s] == rs[room][s])
      && (forall r | r in rs && r != room :: left[r] == rs[r])
  {
    var remaining := rs[room] - {sid};
    assert remaining.Keys == rs[room].Keys - {sid};
    assert |remaining.Keys| == |rs[room].Keys| - 1;
  }

  /**
   * The registry after join: unchanged for an unauthenticated caller; otherwise the
   * room exists, maps sid to the caller's name, keeps every other member and grows by
   * one entry unless sid was already there (a re-join only overwrites the name), and
   * every other room is untouched.
   */
  lemma JoinRegistry(rs: Rooms, room: RoomId, sid: Sid, authenticated: bool, username: Username)
    ensures var t := Join(rs, room, sid, authenticated, username);
      && (!authenticated ==> t == Transition(rs, []))
      && (authenticated ==>
        && t.rooms.Keys == rs.Keys + {room}
        && t.rooms[room].Keys == RoomOf(rs, room).Keys + {sid}
        && t.rooms[room][sid] == username
        && |t.rooms[room]| == |RoomOf(rs, room)| + (if sid in RoomOf(rs, room) then 0 else 1)
        && (forall s | s in RoomOf(rs, room) && s != sid :: t.rooms[room][s] == RoomOf(rs, room)[s])
        && (forall r | r in rs && r != room :: t.rooms[r] == rs[r]))
  {
    InsertMember(rs, room, sid, username);
  }

  /**
   * The messages of an authenticated join: first, to the joiner alone, the room as it
   * was before the insertion (so it holds the joiner only when the joiner was already a
   * member); then, to every member of the new room but the joiner, the joiner's sid
   * and name.
   */
  lemma JoinMessages(rs: Rooms, room: RoomId, sid: Sid, username: Username)
    ensures var t := Join(rs, room, sid, true, username);
      && |t.out| == 2
      && t.out[0].event == ExistingPeers && t.out[0].to == Direct(sid)
      && t.out[0].payload == Snapshot(RoomOf(rs, room))
      && (sid in t.out[0].payload.peers <==> sid in RoomOf(rs, room))
      && t.out[1].event == PeerJoined
      && t.out[1].to == Broadcast(t.rooms[room].Keys - {sid})
      && t.out[1].to.sids == RoomOf(rs, room).Keys - {sid}
      && t.out[1].payload == PeerInfo(sid, username)
  {
    var after := RoomOf(rs, room)[sid := username];
    assert Join(rs, room, sid, true, username).rooms[room] == after;
    assert after.Keys - {sid} == RoomOf(rs, room).Keys - {sid};
  }

  /**
   * leave: when sid is a member of the room exactly that entry goes, the room key stays
   * (an emptied room remains, empty), every other room is untouched, and one notice
   * with the stored name goes to the remaining members; otherwise nothing changes and
   * nothing is sent.
   */
  lemma LeaveEffect(rs: Rooms, room: RoomId, sid: Sid)
    ensures var t := Leave(rs, room, sid);
      && (!(room in rs && sid in rs[room]) ==> t == Transition(rs, []))
      && (room in rs && sid in rs[room] ==>
        && t.rooms.Keys == rs.Keys
        && t.rooms[room].Keys == rs[room].Keys - {sid}
        && |t.rooms[room]| == |rs[room]| - 1
        && (forall s | s in t.rooms[room] :: t.rooms[room][s] == rs[room][s])
        && (forall r | r in rs && r != room :: t.rooms[r] == rs[r])
        && t.out == [Outbound(PeerLeft, Broadcast(t.rooms[room].Keys), PeerInfo(sid, rs[room][sid]))]
        && sid !in t.out[0].to.sids)
  {
    if room in rs && sid in rs[room] {
      RemoveMember(rs, room, sid);
      var remaining := rs[room] - {sid};
      assert remaining.Keys - {sid} == remaining.Keys;
    }
  }

  /**
   * signal never changes the registry; it sends nothing for an unauthenticated caller
   * and otherwise exactly one message, to the target alone, carrying the caller's sid,
   * the signal unchanged and the caller's name.
   */
  lemma SignalEffect(rs: Rooms, sid: Sid, authenticated: bool, username: Username, targetSid: Sid, signal: Signal)
    ensures var t := RelaySignal(rs, sid, authenticated, username, targetSid, signal);
      && t.rooms == rs
      && (!authenticated ==> t.out == [])
      && (authenticated ==>
        && |t.out| == 1
        && t.out[0].event == RelayedSignal
        && t.out[0].to == Direct(targetSid)
        && t.out[0].payload == SignalFrom(sid, signal, username))
  {
  }

  /**
   * disconnect: with no room holding sid nothing happens; otherwise sid leaves the first
   * room of `order` that holds it, and only that one (a later room that also holds sid
   * keeps it), and that room's remaining members get one notice with the stored name.
   */
  lemma DisconnectEffect(order: seq<RoomId>, rs: Rooms, sid: Sid)
    ensures var t := Disconnect(order, rs, sid);
      && (FirstRoomWith(order, rs, sid).None? ==> t == Transition(rs, []))
      && (FirstRoomWith(order, rs, sid).Some? ==>
        var room := FirstRoomWith(order, rs, sid).value;
        && t.rooms.Keys == rs.Keys
        && t.rooms[room].Keys == rs[room].Keys - {sid}
        && (forall s | s in t.rooms[room] :: t.rooms[room][s] == rs[room][s])
        && (forall r | r in rs && r != room :: t.rooms[r] == rs[r])
        && t.out == [Outbound(PeerLeft, Broadcast(t.rooms[room].Keys), PeerInfo(sid, rs[room][sid]))])
  {
    if FirstRoomWith(order, rs, sid).Some? {
      RemoveMember(rs, FirstRoomWith(order, rs, sid).value, sid);
    }
  }

  /**
   * A leave right after a first join (the joiner was not a member) restores the
   * registry, except that the room now exists, and tells the members that were
   * there before, under the name the join stored.
   */
  lemma LeaveUndoesJoin(rs: Rooms, room: RoomId, sid: Sid, username: Username)
    requires sid !in RoomOf(rs, room)
    ensures Leave(Join(rs, room, sid, true, username).rooms, room, sid).rooms == rs[room := RoomOf(rs, room)]
    ensures Leave(Join(rs, room, sid, true, username).rooms, room, sid).out
            == [Outbound(PeerLeft, Broadcast(RoomOf(rs, room).Keys), PeerInfo(sid, username))]
  {
    var before := RoomOf(rs, room);
    var joined := rs[room := before[sid := username]];
    assert Join(rs, room, sid, true, username).rooms == joined;
    assert joined[room][sid] == username;
    assert joined[room] - {sid} == before;
    assert joined[room := before] == rs[room := before];
    assert before.Keys - {sid} == before.Keys;
  }

  /**
   * Two different connections joining one room in turn: the second is sent a snapshot
   * holding the first under its name, the first is among those told about the second,
   * and the second is not told about itself.
   */
  lemma JoinersMeet(rs: Rooms, room: RoomId, c1: Sid, n1: Username, c2: Sid, n2: Username)
    requires c1 != c2
    ensures var second := Join(Join(rs, room, c1, true, n1).rooms, room, c2, true, n2);
      && c1 in second.out[0].payload.peers && second.out[0].payload.peers[c1] == n1
      && c1 in second.out[1].to.sids
      && c2 !in second.out[1].to.sids
      && second.rooms[room][c1] == n1 && second.rooms[room][c2] == n2
  {
    var first := Join(rs, room, c1, true, n1);
    assert RoomOf(first.rooms, room) == first.rooms[room];
  }

  /**
   * Disconnecting is leaving the first room that holds the connection: the same new
   * registry and the same notice (its recipients already exclude the departed sid).
   */
  lemma DisconnectIsLeaveOfFirstRoom(order: seq<RoomId>, rs: Rooms, sid: Sid)
    requires FirstRoomWith(order, rs, sid).Some?
    ensures Disconnect(order, rs, sid) == Leave(rs, FirstRoomWith(order, rs, sid).value, sid)
  {
    var room := FirstRoomWith(order, rs, sid).value;
    var remaining := rs[room] - {sid};
    assert remaining.Keys - {sid} == remaining.Keys;
  }

  /**
   * The registry of the running server. `order` lists the room ids in the order they
   * were first created, which is the order Python iterates the dict in; rooms are never
   * removed, so it only grows.
   */
  class SignalingRelay {
    var rooms: Rooms
    var order: seq<RoomId>

    ghost predicate Valid()
      reads this
    {
      && (forall i, j | 0 <= i < j < |order| :: order[i] != order[j])
      && (forall r :: r in rooms <==> r in order)
    }

    constructor ()
      ensures Valid() && rooms == map[] && order == []
    {
      rooms := map[];
      order := [];
    }

    method OnJoin(room: RoomId, sid: Sid, authenticated: bool, username: Username) returns (out: seq<Outbound>)
      requires Valid()
      modifies this
      ensures Valid()
      ensures rooms == Join(old(rooms), room, sid, authenticated, username).rooms
      ensures out == Join(old(rooms), room, sid, authenticated, username).out
      ensures order == if authenticated && room !in old(rooms) then old(order) + [room] else old(order)
    {
      if !authenticated {
        return [];
      }
      if room !in rooms {
        rooms := rooms[room := map[]];
        order := order + [room];
      }
      var existing := rooms[room];
      assert existing == RoomOf(old(rooms), room);
      out := [Outbound(ExistingPeers, Direct(sid), Snapshot(existing))];
      rooms := rooms[room := rooms[room][sid := username]];
      assert rooms == old(rooms)[room := RoomOf(old(rooms), room)[sid := username]];
      out := out + [Outbound(PeerJoined, Broadcast(rooms[room].Keys - {sid}), PeerInfo(sid, username))];
    }

    method OnLeave(room: RoomId, sid: Sid) returns (out: seq<Outbound>)
      requires Valid()
      modifies this
      ensures Valid() && order == old(order)
      ensures rooms == Leave(old(rooms), room, sid).rooms
      ensures out == Leave(old(rooms), room, sid).out
    {
      out := [];
      if room in rooms && sid in rooms[room] {
        var username := rooms[room][sid];
        rooms := rooms[room := rooms[room] - {sid}];
        out := [Outbound(PeerLeft, Broadcast(rooms[room].Keys - {sid}), PeerInfo(sid, username))];
      }
    }

    method OnSignal(sid: Sid, authenticated: bool, username: Username, targetSid: Sid, signal: Signal)
      returns (out: seq<Outbound>)
      ensures out == RelaySignal(rooms, sid, authenticated, username, targetSid, signal).out
    {
      if !authenticated {
        return [];
      }
      out := [Outbound(RelayedSignal, Direct(targetSid), SignalFrom(sid, signal, username))];
    }

    method OnDisconnect(sid: Sid) returns (out: seq<Outbound>)
      requires Valid()
      modifies this
      ensures Valid() && order == old(order)
      ensures rooms == Disconnect(old(order), old(rooms), sid).rooms
      ensures out == Disconnect(old(order), old(rooms), sid).out
    {
      out := [];
      var i := 0;
      while i < |order|
        invariant 0 <= i <= |order|
        invariant rooms == old(rooms) && order == old(order) && out == []
        invariant FirstRoomWith(order, rooms, sid) == FirstRoomWith(order[i..], rooms, sid)
      {
        var room := order[i];
        if room in rooms && sid in rooms[room] {
          var username := rooms[room][sid];
          rooms := rooms[room := rooms[room] - {sid}];
          out := [Outbound(PeerLeft, Broadcast(rooms[room].Keys), PeerInfo(sid, username))];
          break;
        }
        assert order[i..][1..] == order[i + 1..];
        i := i + 1;
      }
    }
  }
}
