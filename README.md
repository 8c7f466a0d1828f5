# Video rooms: signalling relay, peer table and file framing

This project models the real-time core of a Flask/Socket.IO learning-resources site, plus two small pieces around it.

- **Relay** (`relay.dfy`) is the server's in-memory room registry. It maps a room id to a map from connection sid to username, and the four socket handlers `join`, `leave`, `signal` and `disconnect` change it. Each handler is a pure transition on registry values, with lemmas stating what it promises. It is also a method of the class `SignalingRelay`, which mutates its fields in place and is proved to follow that transition. The `order` field is the creation order of the room keys. That is the order Python iterates the dict in, and it decides which room `disconnect` finds first.
- **Framing** (`framing.dfy`) holds the data-channel protocol the two browser scripts share. It has the receiver state machine of `handleData` (wait for `FILEMETA::`, buffer chunks, finish on `FILEEND`) and the sender side of `sendMsg` and `sendFile`. The file round trip is proved here.
- **PeerClient** (`peer_client.dfy`) and **LegacyClient** (`legacy_client.dfy`) are the `peers` tables and `roomName` of `app/static/webrtc.js` and of the older `static/webrtc.js`. Each is a class whose socket handlers update the table in place. **Session** (`session.dfy`) holds the room-field fallback and the `roomName` truthiness test that they share.
- **Resources** (`resources.dfy`) covers the field choices of `nuevo`: title check, link, category precedence, blob and vector-store entry. It also has `str.strip()`, and the search merge of `buscar_semantico` as a loop proved against a specification.
- **Users** (`users.dfy`) is the user record and its username `email.split('@')[0]`.

Collaborators enter as parameters:
- JSON, TextDecoder, IPFS, the NLP model, the vector store and the database rows;
- which peer connections are open;
- whether the caller is authenticated.

Two behaviours of the relay worth knowing:
- **Emptied rooms are kept.** `leave` and `disconnect` leave an emptied room in the registry as `{}` (app/__init__.py:91, 121). So a sid that joins N different rooms and then leaves each of them leaves N empty rooms behind. `Relay.LeaveEffect` states that the room keys are unchanged.
- **Disconnect removes one room only.** It removes the sid from the first room holding it, not from every room (app/__init__.py:119-123).

## Model

| member | source | states |
|---|---|---|
| Relay.RoomOf | app/__init__.py:73-75 | a room's members, empty for a room not yet in the registry; the lemmas below use it for the room as the handler finds or creates it |
| Relay.Join | app/__init__.py:60-80 | the join handler as a transition: unauthenticated is a no-op; else create the room empty, snapshot, insert, notify |
| Relay.Leave | app/__init__.py:82-93 | the leave handler as a transition: pop the entry and notify when sid is in the room, else nothing |
| Relay.RelaySignal | app/__init__.py:95-110 | the signal handler as a transition: registry untouched, one unicast message when authenticated |
| Relay.Disconnect | app/__init__.py:112-123 | the disconnect handler as a transition on the first room holding sid |
| Relay.FirstRoomWith | app/__init__.py:119-120 | Some(r) exactly when some room in iteration order holds sid, r being the first such room; None when no room holds it |
| Relay.JoinRegistry | app/__init__.py:69-78 | unauthenticated join changes nothing and emits nothing; otherwise rooms[room][sid] == username, the room grows by one unless sid was there (re-join overwrites), other entries and rooms unchanged |
| Relay.JoinMessages | app/__init__.py:73-80 | existing_peers goes only to the joiner and is the room before insertion (holds the joiner iff it was already a member); peer_joined goes to every other member of the room |
| Relay.LeaveEffect | app/__init__.py:87-93 | sid in room: exactly that entry removed, room key kept (possibly empty), one peer_left with the stored name to the remaining members; otherwise no change, no message |
| Relay.SignalEffect | app/__init__.py:100-110 | registry untouched; unauthenticated gets nothing; else exactly one message to target_sid only, with caller sid, unchanged signal and caller name |
| Relay.DisconnectEffect | app/__init__.py:117-123 | nothing when no room holds sid; otherwise sid leaves only the first room holding it, which gets one peer_left with the stored name |
| Relay.LeaveUndoesJoin | app/__init__.py:73-93 | a leave after a first join restores the registry except that the room now exists, and tells the earlier members under the joined name |
| Relay.JoinersMeet | app/__init__.py:73-80 | of two joiners of one room, the second's snapshot holds the first under its name, the first is told about the second, the second is not told about itself |
| Relay.DisconnectIsLeaveOfFirstRoom | app/__init__.py:119-123 | disconnect equals leave of the first room holding sid, in registry and message |
| Relay.SignalingRelay.constructor | app/__init__.py:58 | the registry starts empty |
| Relay.SignalingRelay.OnJoin | app/__init__.py:60-80 | new registry and messages are those of Join; the creation order gains the room iff it was created |
| Relay.SignalingRelay.OnLeave | app/__init__.py:82-93 | new registry and messages are those of Leave; room order unchanged |
| Relay.SignalingRelay.OnSignal | app/__init__.py:95-110 | the messages are those of RelaySignal, the registry is not modified |
| Relay.SignalingRelay.OnDisconnect | app/__init__.py:112-123 | the loop over rooms in creation order with early break yields the registry and messages of Disconnect |
| Framing.Decoded | app/static/webrtc.js:74-79 | the text a frame is read as: a text frame as itself, a binary frame through TextDecoder |
| Framing.Receive | app/static/webrtc.js:84-109 | one receiver step on a known peer: open transfer buffers all but FILEEND, which closes it; idle: FILEMETA:: opens with no chunks, other text is chat |
| Framing.Run | app/static/webrtc.js:73-110 | a receiver fed frames in order: final state and each frame's outcome |
| Framing.Binaries | app/static/webrtc.js:194-196 | one binary frame per chunk, same order and contents |
| Framing.FileFrames | app/static/webrtc.js:186-196 | the frames sendFile writes to one peer: the FILEMETA:: text, one binary frame per chunk, then FILEEND; Framing.FileRoundTrip proves what a receiver makes of them |
| Framing.RunCons | app/static/webrtc.js:73-110 | the receiver takes the first frame first |
| Framing.OpenTransferBuffersAll | app/static/webrtc.js:84-100 | with a transfer open, every frame other than FILEEND (another FILEMETA:: included) is appended in order and the transfer stays open |
| Framing.EndMarkerCompletes | app/static/webrtc.js:84-97 | an open transfer followed by non-FILEEND frames and FILEEND closes, handing over the earlier chunks plus those frames in order |
| Framing.FileRoundTrip | app/static/webrtc.js:176-199 | what sendFile writes makes an idle receiver open with the sent metadata, buffer each chunk and on FILEEND hand over exactly the chunks sent, in order, then fall idle; needs JSON to round-trip the metadata and no chunk to decode to FILEEND |
| Framing.MetaOf | app/static/webrtc.js:176 | the metadata sent for a file: its name, size and type |
| Framing.EarlyEndMarkerTruncates | app/static/webrtc.js:84-98 | a chunk decoding to FILEEND closes the transfer early with no chunks, and the real end marker arrives as a chat line |
| Framing.IdleChatOnly | static/webrtc.js:104-112 | outside a transfer, text without the FILEMETA:: prefix is only logged as chat, frame by frame, and the receiver stays idle |
| Framing.FanOut | app/static/webrtc.js:162-166 | the send loop: exactly the peers in the table with an open connection get the frames |
| Framing.SendMsg | app/static/webrtc.js:155-167 | empty message sends nothing; otherwise each connected peer gets the message as one text frame (same in static/webrtc.js:153-165) |
| Framing.SendFile | app/static/webrtc.js:169-203 | no file sends nothing; otherwise each connected peer gets metadata frame, chunks, FILEEND (same in static/webrtc.js:167-205) |
| Session.RoomChoice | app/static/webrtc.js:19 | the room joined is never empty: the typed text, or "default" when none |
| Session.InRoom | app/static/webrtc.js:25 | the `if (roomName)` test: a room is set and is not the empty string |
| PeerClient.NewEntry | app/static/webrtc.js:119-120 | a fresh entry stores the given name and initiator flag with no transfer open |
| PeerClient.Client.constructor | app/static/webrtc.js:2-3 | no peers and no room at page load |
| PeerClient.Client.Join | app/static/webrtc.js:18-22 | roomName becomes the chosen room and a join request for it is emitted; peers unchanged |
| PeerClient.Client.Leave | app/static/webrtc.js:24-36 | a leave request only when roomName is set, roomName then null; every connection destroyed and peers empty |
| PeerClient.Client.OnExistingPeers | app/static/webrtc.js:115-122 | one initiator entry per key of the payload with that key's username; every other entry unchanged |
| PeerClient.Client.OnPeerJoined | app/static/webrtc.js:124-129 | peers[sid] becomes a non-initiator entry with the given name, nothing else changes |
| PeerClient.Client.OnSignal | app/static/webrtc.js:131-141 | known caller: table unchanged; unknown caller: one entry added with caller_username |
| PeerClient.Client.OnPeerLeft | app/static/webrtc.js:143-150 | the entry for sid is removed whether or not it existed; others unchanged; destroyed iff it existed |
| PeerClient.Client.OnPeerGone | app/static/webrtc.js:60-68 | a close or error event removes that peer's entry |
| PeerClient.Client.HandleData | app/static/webrtc.js:73-110 | data from a sid not in peers changes nothing; otherwise only that entry's transfer takes one Receive step |
| LegacyClient.Client.constructor | static/webrtc.js:2-3 | no peers and no room at page load |
| LegacyClient.Client.Join | static/webrtc.js:12-16 | roomName becomes the chosen room and a join request is emitted |
| LegacyClient.Client.Leave | static/webrtc.js:18-31 | a leave request only when roomName is set, roomName then null; peers empty |
| LegacyClient.Client.OnExistingPeers | static/webrtc.js:118-123 | each sid of the list gets an initiator entry; ids not in the list keep theirs |
| LegacyClient.Client.OnPeerJoined | static/webrtc.js:125-128 | a non-initiator entry for payload.sid, nothing else changes |
| LegacyClient.Client.OnSignal | static/webrtc.js:130-139 | unknown caller: entry created; known caller: table unchanged |
| LegacyClient.Client.OnPeerLeft | static/webrtc.js:141-148 | deletes the entry only if present; otherwise nothing changes |
| LegacyClient.Client.OnPeerGone | static/webrtc.js:56-64 | a close or error event removes that peer's entry |
| LegacyClient.Client.HandleData | static/webrtc.js:71-113 | known peer: one Receive step on its transfer; unknown sid: the outcome of an idle receiver on a throwaway state, table untouched |
| Resources.IsSpace | app/routes/resources.py:21 | the characters Python's str.strip() removes: the Unicode white space and the separators 0x1C-0x1F |
| Resources.TrimStart | app/routes/resources.py:21 | the result is a suffix, everything cut is white space, and it does not start with white space |
| Resources.TrimEnd | app/routes/resources.py:21 | the result is a prefix, everything cut is white space, and it does not end with white space |
| Resources.Strip | app/routes/resources.py:21-28 | str.strip(), as applied to the form fields here and to the query at l.102: leading then trailing white space cut; the Strip lemmas below state its properties |
| Resources.StripShape | app/routes/resources.py:21 | strip() keeps one contiguous piece of its input |
| Resources.StripMargins | app/routes/resources.py:21 | everything strip() removes at either end is white space |
| Resources.StripEnds | app/routes/resources.py:21 | a non-empty stripped value starts and ends with a non-space character |
| Resources.StripEmptyIff | app/routes/resources.py:21-22 | a value strips to "" exactly when it is all white space |
| Resources.StripIdempotent | app/routes/resources.py:21 | stripping twice equals stripping once |
| Resources.NonBlank | app/routes/resources.py:28-30 | `x or None`: None exactly for the empty string, else the value |
| Resources.Field | app/routes/resources.py:21 | `request.form.get(key, '')`: the submitted value, or "" when the key is missing |
| Resources.ReadForm | app/routes/resources.py:21-28 | the four text fields of the form, each read with a "" default and stripped |
| Resources.HasFile | app/routes/resources.py:35 | `file and file.filename`: a file was sent and its name is not empty |
| Resources.Analyse | app/routes/resources.py:44-59 | the try block: classification, embedding and blob, with the fallback category and warning when any step raises |
| Resources.Store | app/routes/resources.py:61-74 | the row inserted and the vector-store entry when an embedding exists |
| Resources.Submit | app/routes/resources.py:20-78 | the POST branch of nuevo on the stripped fields |
| Resources.CreateResource | app/routes/resources.py:13-78 | nuevo: read and strip the form, then Submit |
| Resources.BlankTitleRejected | app/routes/resources.py:21-24 | a blank title is refused with the error flash, and only a blank title is refused |
| Resources.BlankTitleField | app/routes/resources.py:21-24 | the request is refused exactly when the raw title field is all white space or missing |
| Resources.FailedUploadAborts | app/routes/resources.py:35-42 | the request aborts without an insert exactly when a file with a name was sent and its upload raised |
| Resources.StoredFields | app/routes/resources.py:26-42 | stored title, description and user id; the link is the upload's gateway URL when a file was sent (even None), else the manual link or None |
| Resources.CategoryPrecedence | app/routes/resources.py:28-56 | stored category: manual if non-blank, else the classifier's when the NLP step succeeded, else "Sin clasificar" |
| Resources.IndexedIffEmbedded | app/routes/resources.py:44-74 | a vector-store entry exactly when an embedding was computed, with the stored title and category; a blob only alongside it |
| Resources.ManualCategorySkipsClassifier | app/routes/resources.py:48 | with a manual category the classifier's answer cannot affect the outcome |
| Resources.Placeholders | app/routes/resources.py:117 | n question marks joined by ", ": length 3n-2 (0 for none), '?' at every third position |
| Resources.PlaceholderCount | app/routes/resources.py:117 | the placeholder string holds exactly one '?' per id |
| Resources.Kept | app/routes/resources.py:123-128 | the ids kept are those with a row, no more and no fewer, as a subsequence of the ids, at most as many |
| Resources.KeptCounts | app/routes/resources.py:123-128 | each id with a row is kept exactly as many times as it occurs among the ids; an id without a row never |
| Resources.LastScores | app/routes/resources.py:124-127 | a kept id's score is the score at its last occurrence (rows are updated in place) |
| Resources.Merged | app/routes/resources.py:123-128 | the results as rendered: one entry per kept id, in order, the row of that id with its final score; Resources.MergedMeaning states what it holds |
| Resources.Merge | app/routes/resources.py:123-128 | the loop's result is the merged list: each kept row in order with its final score |
| Resources.MergedMeaning | app/routes/resources.py:123-128 | results follow the ids' order as a subsequence, each the row of its id, drop ids without a row, keep every id with one as many times as it occurs, at most as many as the ids |
| Resources.DistinctIdsOwnScores | app/routes/resources.py:124-128 | with distinct ids, the i-th id's row appears in the results with scores[i] |
| Resources.RepeatedIdSharesLastScore | app/routes/resources.py:119-128 | an id returned twice yields the same row twice, both with the second score |
| Resources.Fetch | app/routes/resources.py:116-119 | the rows fetched are exactly the database rows whose id is among the ids |
| Resources.Search | app/routes/resources.py:101-130 | blank query refused; EmbeddingFailed stands for the exception generar_embedding raises at l.109, which the source does not catch and which fails the request; an empty hit list gives []; otherwise the merged list of the fetched rows |
| Users.Username | app/models.py:20 | the name is a prefix of the e-mail without '@', followed by '@' or reaching the end |
| Users.NoAtWholeEmail | app/models.py:20 | without '@' the whole e-mail is the name |
| Users.SplitAtFirstAt | app/models.py:20 | with an '@', email == username + "@" + rest |
| Users.NameBeforeAt | app/models.py:20 | a name without '@' followed by '@' and anything splits back to that name |
| Users.TestAccountName | tests/test_app.py:76-82 | testuser@alumno.buap.mx is shown as testuser |
| Users.NewUser | app/models.py:7-20 | id, email and role stored unchanged; username derived from the email |

## Left out

- Socket.IO transport: `join_room`/`leave_room` and delivery itself. The source broadcasts `peer_joined` and `peer_left` to Socket.IO's own room with `to=room` (app/__init__.py:80, 93, 122). The model instead resolves the recipients from the registry: the room's members minus the sender. The two agree as long as Socket.IO's rooms and the registry hold the same sids.
- Concurrent dispatch of socket events: each handler is one atomic method.
- A missing `room`, `target_sid` or `signal` key raises KeyError in the source. These are not modelled; `data.get('room')` returning None behaves as an absent room, which `Relay.Leave` already covers.
- When `existing_peers` is serialised: the snapshot is taken as the map before the insertion.
- Flask routing, templates, flash rendering, sessions and flask_login. `current_user` enters as the `authenticated` flag and the username.
- SimplePeer internals. Feeding a relayed signal into a connection, the `signal` emit from `createPeer` (app/static/webrtc.js:45-50) and the `connect` event are not modelled. Destroy is reported as a set or flag. Which connections are open is the `connected` parameter.
- JSON.stringify, JSON.parse and TextDecoder are the three functions of `Framing.Codec`. A parse that throws and a parse that yields a falsy value both become None. A truthy value that is not metadata is not distinguished.
- Framing.SendFile: every peer is sent the same chunk sequence. The source runs a separate asynchronous stream reader per peer, and the model does not capture how those reads interleave across peers or over time.
- Blob/URL download, DOM logging and the unused 16 KB `chunkSize` constant of static/webrtc.js.
- NLP model internals, numpy float32 serialisation, the vector store's `1/(1+d)` score (scores are reals) and `add_embedding`'s own error handling.
- Resources.Search: `int(request.form.get('k', 5))` enters as the parameter `topK`. A `k` that does not parse raises in the source and is not modelled. Ids are assumed to be canonical decimal strings, so `str(int(id))` maps them to themselves.
- Resources.Merge: requires at least as many scores as ids. The vector store returns equal lengths, and fewer scores would raise IndexError.
- The database row id assigned by the insert (`lastrowid`), which the vector-store entry is keyed by.
- Unicode details of `str.strip()` beyond the character set listed in `Resources.IsSpace`.
