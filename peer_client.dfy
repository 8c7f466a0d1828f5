/**
 * The browser side of a room as app/static/webrtc.js keeps it: the `peers` table, keyed
 * by the other peer's socket id, holding the username the server reported, whether this
 * browser initiated the connection, and the file transfer (`_fileMeta`/`_fileChunks`)
 * in progress from that peer; and `roomName`, the room joined, or null.
 *
 * The SimplePeer objects themselves are not modelled: "destroy" is reported as the set
 * of ids whose connections the handler tears down. sendMsg and sendFile, which both
 * scripts share, are Framing.SendMsg and Framing.SendFile over the keys of `peers`.
 */
module PeerClient {
  import opened Common
  import opened Session
  import opened Framing

  /** `{ peer, username }` plus the transfer fields handleData sets on it. */
  datatype PeerEntry = PeerEntry(username: string, initiator: bool, transfer: Transfer)

  /** A fresh entry as createPeer makes it: no transfer in progress. */
  function NewEntry(username: string, initiator: bool): (e: PeerEntry)
    ensures e.username == username && e.initiator == initiator && e.transfer == Idle
  {
    PeerEntry(username, initiator, Idle)
  }

  class Client {
    var peers: map<Sid, PeerEntry>
    var roomName: Option<string>

    /** Page load: no peers, no room. */
    constructor()
      ensures peers == map[] && roomName == None
    {
      peers := map[];
      roomName := None;
    }

    /** join(): remember the room (typed text or "default") and ask the server to join it. */
    method Join(input: string) returns (sent: RoomRequest)
      modifies this
      ensures roomName == Some(RoomChoice(input))
      ensures sent == JoinRequest(RoomChoice(input))
      ensures peers == old(peers)
    {
      roomName := Some(RoomChoice(input));
      sent := JoinRequest(roomName.value);
    }

    /**
     * leave(): a leave request only when a room is set, then every connection is torn
     * down and the table emptied; the room is cleared only when it was set.
     */
    method Leave() returns (sent: Option<RoomRequest>, destroyed: set<Sid>)
      modifies this
      ensures InRoom(old(roomName)) ==> sent == Some(LeaveRequest(old(roomName).value)) && roomName == None
      ensures !InRoom(old(roomName)) ==> sent == None && roomName == old(roomName)
      ensures destroyed == old(peers).Keys
      ensures peers == map[]
    {
      sent := None;
      if InRoom(roomName) {
        sent := Some(LeaveRequest(roomName.value));
        roomName := None;
      }
      destroyed := peers.Keys;
      peers := map[];
    }

    /**
     * existing_peers: the payload maps each member already in the room to its username;
     * each gets a fresh initiator entry, and every other entry is left as it was.
     */
    method OnExistingPeers(existing: map<Sid, string>)
      modifies this
      ensures peers.Keys == old(peers).Keys + existing.Keys
      ensures forall s | s in existing :: peers[s] == NewEntry(existing[s], true)
      ensures forall s | s in old(peers) && s !in existing :: peers[s] == old(peers)[s]
      ensures roomName == old(roomName)
    {
      var todo := existing.Keys;
      while todo != {}
        invariant todo <= existing.Keys
        invariant peers.Keys == old(peers).Keys + (existing.Keys - todo)
        invariant forall s | s in existing && s !in todo :: peers[s] == NewEntry(existing[s], true)
        invariant forall s | s in old(peers) && s !in existing :: peers[s] == old(peers)[s]
        invariant roomName == old(roomName)
        decreases |todo|
      {
        var s :| s in todo;
        peers := peers[s := NewEntry(existing[s], true)];
        todo := todo - {s};
      }
    }

    /** peer_joined: the newcomer gets a fresh non-initiator entry, replacing any old one. */
    method OnPeerJoined(sid: Sid, username: string)
      modifies this
      ensures peers == old(peers)[sid := NewEntry(username, false)]
      ensures roomName == old(roomName)
    {
      peers := peers[sid := NewEntry(username, false)];
    }

    /**
     * signal: a caller already in the table leaves it unchanged (the signal goes to its
     * connection); an unknown caller first gets a non-initiator entry. `created` says
     * which happened.
     */
    method OnSignal(callerSid: Sid, callerUsername: string) returns (created: bool)
      modifies this
      ensures created <==> callerSid !in old(peers)
      ensures created ==> peers == old(peers)[callerSid := NewEntry(callerUsername, false)]
      ensures !created ==> peers == old(peers)
      ensures roomName == old(roomName)
    {
      created := callerSid !in peers;
      if created {
        peers := peers[callerSid := NewEntry(callerUsername, false)];
      }
    }

    /**
     * peer_left: the connection is torn down if there is one, and the entry is deleted
     * either way; nothing else changes.
     */
    method OnPeerLeft(sid: Sid) returns (destroyed: bool)
      modifies this
      ensures destroyed <==> sid in old(peers)
      ensures peers == old(peers) - {sid}
      ensures roomName == old(roomName)
    {
      destroyed := sid in peers;
      peers := peers - {sid};
    }

    /** A connection's close or error event: its entry is deleted. */
    method OnPeerGone(sid: Sid)
      modifies this
      ensures peers == old(peers) - {sid}
      ensures roomName == old(roomName)
    {
      peers := peers - {sid};
    }

    /**
     * handleData: a frame from a peer not in the table is ignored; otherwise that peer's
     * transfer takes one receiver step and only that entry's transfer changes.
     */
    method HandleData(codec: Codec, fromSid: Sid, f: Frame) returns (o: Option<Outcome>)
      modifies this
      ensures fromSid !in old(peers) ==> o == None && peers == old(peers)
      ensures fromSid in old(peers) ==>
        var entry := old(peers)[fromSid];
        var step := Receive(codec, entry.transfer, f);
        o == Some(step.1) && peers == old(peers)[fromSid := entry.(transfer := step.0)]
      ensures roomName == old(roomName)
    {
      if fromSid !in peers {
        return None;
      }
      var entry := peers[fromSid];
      var step := Receive(codec, entry.transfer, f);
      peers := peers[fromSid := entry.(transfer := step.0)];
      o := Some(step.1);
    }
  }
}
