/**
 * The older browser script, static/webrtc.js. Its `peers` table maps a socket id
 * straight to the SimplePeer object, so it keeps no username; handleData stores the
 * transfer fields on that object. The differences from app/static/webrtc.js that the
 * model keeps: existing_peers is a list of ids, peer_left deletes only a present entry,
 * and data from an id not in the table runs the receiver on a throwaway `{}`.
 */
module LegacyClient {
  import opened Common
  import opened Session
  import opened Framing

  /** A SimplePeer object with the transfer fields handleData puts on it. */
  datatype LegacyPeer = LegacyPeer(initiator: bool, transfer: Transfer)

  class Client {
    var peers: map<Sid, LegacyPeer>
    var roomName: Option<string>

    /** Page load: no peers, no room. */
    constructor()
      ensures peers == map[] && roomName == None
    {
      peers := map[];
      roomName := None;
    }

    /** join(): remember the room (typed text or "default") and ask the server to join it. */
    method Join(input: string) returns (sent: RoomRequest)
      modifies this
      ensures roomName == Some(RoomChoice(input))
      ensures sent == JoinRequest(RoomChoice(input))
      ensures peers == old(peers)
    {
      roomName := Some(RoomChoice(input));
      sent := JoinRequest(roomName.value);
    }

    /**
     * leave(): a leave request only when a room is set, then every connection is torn
     * down and the table emptied; the room is cleared only when it was set.
     */
    method Leave() returns (sent: Option<RoomRequest>, destroyed: set<Sid>)
      modifies this
      ensures InRoom(old(roomName)) ==> sent == Some(LeaveRequest(old(roomName).value)) && roomName == None
      ensures !InRoom(old(roomName)) ==> sent == None && roomName == old(roomName)
      ensures destroyed == old(peers).Keys
      ensures peers == map[]
    {
      sent := None;
      if InRoom(roomName) {
        sent := Some(LeaveRequest(roomName.value));
        roomName := None;
      }
      destroyed := peers.Keys;
      peers := map[];
    }

    /**
     * existing_peers: every id of the list, in list order, gets a fresh initiator
     * connection; ids not in the list keep their entries.
     */
    method OnExistingPeers(existing: seq<Sid>)
      modifies this
      ensures peers.Keys == old(peers).Keys + (set s | s in existing)
      ensures forall s | s in existing :: peers[s] == LegacyPeer(true, Idle)
      ensures forall s | s in old(peers) && s !in existing :: peers[s] == old(peers)[s]
      ensures roomName == old(roomName)
    {
      for i := 0 to |existing|
        invariant peers.Keys == old(peers).Keys + (set s | s in existing[..i])
        invariant forall s | s in existing[..i] :: peers[s] == LegacyPeer(true, Idle)
        invariant forall s | s in old(peers) && s !in existing[..i] :: peers[s] == old(peers)[s]
        invariant roomName == old(roomName)
      {
        assert existing[..i + 1] == existing[..i] + [existing[i]];
        peers := peers[existing[i] := LegacyPeer(true, Idle)];
      }
      assert existing[..|existing|] == existing;
    }

    /** peer_joined: a fresh non-initiator connection for payload.sid, replacing any old one. */
    method OnPeerJoined(sid: Sid)
      modifies this
      ensures peers == old(peers)[sid := LegacyPeer(false, Idle)]
      ensures roomName == old(roomName)
    {
      peers := peers[sid := LegacyPeer(false, Idle)];
    }

    /**
     * signal: a known caller leaves the table unchanged (the signal goes to its
     * connection); an unknown caller first gets a non-initiator connection.
     */
    method OnSignal(callerSid: Sid) returns (created: bool)
      modifies this
      ensures created <==> callerSid !in old(peers)
      ensures created ==> peers == old(peers)[callerSid := LegacyPeer(false, Idle)]
      ensures !created ==> peers == old(peers)
      ensures roomName == old(roomName)
    {
      created := callerSid !in peers;
      if created {
        peers := peers[callerSid := LegacyPeer(false, Idle)];
      }
    }

    /** peer_left: a present entry is torn down and deleted; an absent one changes nothing. */
    method OnPeerLeft(sid: Sid) returns (destroyed: bool)
      modifies this
      ensures destroyed <==> sid in old(peers)
      ensures destroyed ==> peers == old(peers) - {sid}
      ensures !destroyed ==> peers == old(peers)
      ensures roomName == old(roomName)
    {
      destroyed := false;
      if sid in peers {
        destroyed := true;
        peers := peers - {sid};
      }
    }

    /** A connection's close or error event: its entry is deleted. */
    method OnPeerGone(sid: Sid)
      modifies this
      ensures peers == old(peers) - {sid}
      ensures roomName == old(roomName)
    {
      peers := peers - {sid};
    }

    /**
     * handleData: a known peer's transfer takes one receiver step. A frame from an id not
     * in the table is handled by a throwaway idle state: it yields the outcome an idle
     * receiver would, and the table is untouched, so no transfer state survives.
     */
    method HandleData(codec: Codec, fromSid: Sid, f: Frame) returns (o: Outcome)
      modifies this
      ensures fromSid !in old(peers) ==> o == Receive(codec, Idle, f).1 && peers == old(peers)
      ensures fromSid in old(peers) ==>
        var entry := old(peers)[fromSid];
        var step := Receive(codec, entry.transfer, f);
        o == step.1 && peers == old(peers)[fromSid := entry.(transfer := step.0)]
      ensures roomName == old(roomName)
    {
      if fromSid in peers {
        var entry := peers[fromSid];
        var step := Receive(codec, entry.transfer, f);
        peers := peers[fromSid := entry.(transfer := step.0)];
        o := step.1;
      } else {
        var throwaway := Receive(codec, Idle, f);
        o := throwaway.1;
      }
    }
  }
}
