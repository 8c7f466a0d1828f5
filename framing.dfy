/**
 * The file-transfer framing both browser scripts use on a peer data channel.
 *
 * A sender writes a metadata frame "FILEMETA::" + JSON, then the file's chunks as
 * binary frames, then the text frame "FILEEND". A receiver keeps, per peer, either no
 * transfer or an open one (the parsed metadata and the frames buffered so far); every
 * incoming frame is first decoded as text, and that text decides the step.
 *
 * The sending side (sendMsg, sendFile) is here too, as both scripts have it alike.
 *
 * JSON.stringify, JSON.parse and TextDecoder are browser facilities; they enter the
 * model as the three functions of a Codec, and only what the scripts rely on about
 * them is assumed where it is needed.
 */
module Framing {
  import opened Common

  const FileMetaPrefix: string := "FILEMETA::"
  const FileEnd: string := "FILEEND"

  /** One data-channel message: a string the script passed to send, or a raw file chunk. */
  datatype Frame = Text(text: string) | Binary(bytes: Bytes)

  /** The metadata object the sender builds from the chosen file. */
  datatype FileMeta = FileMeta(name: string, size: nat, mime: string)

  /**
   * stringify: JSON.stringify of the metadata; parse: JSON.parse, None when it throws or
   * yields a falsy value (either way no transfer opens); decode: TextDecoder on a chunk.
   */
  datatype Codec = Codec(stringify: FileMeta -> string,
                         parse: string -> Option<FileMeta>,
                         decode: Bytes -> string)

  /** The text the receiver sees for a frame; a string frame arrives as itself. */
  function Decoded(codec: Codec, f: Frame): string
  {
    match f
    case Text(s) => s
    case Binary(b) => codec.decode(b)
  }

  /** A peer's transfer state: `_fileMeta` unset, or set with the `_fileChunks` so far. */
  datatype Transfer = Idle | Receiving(meta: FileMeta, chunks: seq<Frame>)

  /** What one frame makes the receiver do, besides changing its transfer state. */
  datatype Outcome =
    | Chat(text: string)                              // logged as a chat line
    | Opened(meta: FileMeta)                          // a transfer starts
    | Buffered                                        // the frame is kept as a chunk
    | Completed(meta: FileMeta, chunks: seq<Frame>)   // the chunks are offered as a download
    | Unparsed                                        // the metadata did not parse

  /**
   * One step of handleData on a known peer. While a transfer is open, "FILEEND" closes it
   * and hands over the chunks, and anything else is buffered. With none open, a text
   * starting with "FILEMETA::" opens one, and any other text is a chat line.
   */
  function Receive(codec: Codec, t: Transfer, f: Frame): (Transfer, Outcome)
  {
    var msg := Decoded(codec, f);
    match t
    case Receiving(meta, chunks) =>
      if msg == FileEnd then (Idle, Completed(meta, chunks))
      else (Receiving(meta, chunks + [f]), Buffered)
    case Idle =>
      if FileMetaPrefix <= msg then
        match codec.parse(msg[|FileMetaPrefix|..])
        case Some(meta) => (Receiving(meta, []), Opened(meta))
        case None => (Idle, Unparsed)
      else
        (Idle, Chat(msg))
  }

  /** The receiver fed a sequence of frames: the final state and each frame's outcome. */
  function Run(codec: Codec, t: Transfer, frames: seq<Frame>): (Transfer, seq<Outcome>)
    decreases |frames|
  {
    if frames == [] then (t, [])
    else
      var step := Receive(codec, t, frames[0]);
      var rest := Run(codec, step.0, frames[1..]);
      (rest.0, [step.1] + rest.1)
  }

  /** Run takes the first frame first. */
  lemma RunCons(codec: Codec, t: Transfer, f: Frame, rest: seq<Frame>)
    ensures var (next, o) := Receive(codec, t, f);
      Run(codec, t, [f] + rest) == (Run(codec, next, rest).0, [o] + Run(codec, next, rest).1)
  {
    assert ([f] + rest)[0] == f;
    assert ([f] + rest)[1..] == rest;
  }

  function Repeat<T>(x: T, n: nat): (r: seq<T>)
    ensures |r| == n && forall i | 0 <= i < n :: r[i] == x
  {
    if n == 0 then [] else [x] + Repeat(x, n - 1)
  }

  /** The chunks of a file stream, each sent as a binary frame, in order. */
  function Binaries(chunks: seq<Bytes>): (frames: seq<Frame>)
    ensures |frames| == |chunks|
    ensures forall i | 0 <= i < |chunks| :: frames[i] == Binary(chunks[i])
  {
    if chunks == [] then [] else [Binary(chunks[0])] + Binaries(chunks[1..])
  }

  /** What sendFile writes to each connected peer: metadata, the chunks, the end marker. */
  function FileFrames(codec: Codec, meta: FileMeta, chunks: seq<Bytes>): seq<Frame>
  {
    [Text(FileMetaPrefix + codec.stringify(meta))] + Binaries(chunks) + [Text(FileEnd)]
  }

  /** The file picked in the file input: its properties and the chunks its stream yields. */
  datatype File = File(name: string, size: nat, mime: string, chunks: seq<Bytes>)

  /** The metadata object sendFile builds: { name, size, type }. */
  function MetaOf(file: File): FileMeta
  {
    FileMeta(file.name, file.size, file.mime)
  }

  /**
   * The send loop of sendMsg and sendFile: walk the peer table and hand the frames to
   * every peer whose connection is open. The result maps each peer that was written to
   * onto what it was sent; `connected` is the connection state SimplePeer keeps.
   */
  method FanOut(peers: set<string>, connected: set<string>, frames: seq<Frame>)
    returns (sent: map<string, seq<Frame>>)
    ensures sent.Keys == peers * connected
    ensures forall s | s in sent :: sent[s] == frames
  {
    sent := map[];
    var todo := peers;
    while todo != {}
      invariant todo <= peers
      invariant sent.Keys == (peers - todo) * connected
      invariant forall s | s in sent :: sent[s] == frames
      decreases |todo|
    {
      var s :| s in todo;
      if s in connected {
        sent := sent[s := frames];
      }
      todo := todo - {s};
    }
  }

  /**
   * sendMsg, given the ids in the peer table: an empty message sends nothing; otherwise
   * every peer with an open connection is sent the message as one text frame.
   */
  method SendMsg(peers: set<string>, connected: set<string>, msg: string)
    returns (sent: map<string, seq<Frame>>)
    ensures msg == "" ==> sent == map[]
    ensures msg != "" ==> sent.Keys == peers * connected
    ensures forall s | s in sent :: sent[s] == [Text(msg)]
  {
    if msg == "" {
      return map[];
    }
    sent := FanOut(peers, connected, [Text(msg)]);
  }

  /**
   * sendFile, given the ids in the peer table: with no file chosen nothing is sent;
   * otherwise every peer with an open connection is sent the metadata frame, the file's
   * chunks and the end marker.
   */
  method SendFile(peers: set<string>, connected: set<string>, codec: Codec, file: Option<File>)
    returns (sent: map<string, seq<Frame>>)
    ensures file.None? ==> sent == map[]
    ensures file.Some? ==> sent.Keys == peers * connected
    ensures file.Some? ==> forall s | s in sent :: sent[s] == FileFrames(codec, MetaOf(file.value), file.value.chunks)
  {
    if file.None? {
      return map[];
    }
    sent := FanOut(peers, connected, FileFrames(codec, MetaOf(file.value), file.value.chunks));
  }

  /** No frame of the sequence reads as the end marker. */
  predicate NoEndMarker(codec: Codec, frames: seq<Frame>)
  {
    forall i | 0 <= i < |frames| :: Decoded(codec, frames[i]) != FileEnd
  }

  /**
   * While a transfer is open, every frame other than the end marker is appended, in
   * order, whatever it says (a second "FILEMETA::" frame or a chat line included).
   */
  lemma {:induction false} OpenTransferBuffersAll(codec: Codec, meta: FileMeta, acc: seq<Frame>, frames: seq<Frame>)
    requires NoEndMarker(codec, frames)
    ensures Run(codec, Receiving(meta, acc), frames) == (Receiving(meta, acc + frames), Repeat(Buffered, |frames|))
    decreases |frames|
  {
    if frames != [] {
      assert Decoded(codec, frames[0]) != FileEnd;
      assert NoEndMarker(codec, frames[1..]) by {
        forall i | 0 <= i < |frames[1..]| ensures Decoded(codec, frames[1..][i]) != FileEnd {
          assert frames[1..][i] == frames[i + 1];
        }
      }
      assert Receive(codec, Receiving(meta, acc), frames[0]) == (Receiving(meta, acc + [frames[0]]), Buffered);
      OpenTransferBuffersAll(codec, meta, acc + [frames[0]], frames[1..]);
      var rest := Run(codec, Receiving(meta, acc + [frames[0]]), frames[1..]);
      assert Run(codec, Receiving(meta, acc), frames) == (rest.0, [Buffered] + rest.1);
      assert acc + [frames[0]] + frames[1..] == acc + frames;
      assert rest.0 == Receiving(meta, acc + frames);
      assert [Buffered] + Repeat(Buffered, |frames| - 1) == Repeat(Buffered, |frames|);
    } else {
      assert acc + frames == acc;
    }
  }

  /**
   * An open transfer followed by frames without the end marker and then the end marker
   * closes, handing over exactly what it had plus those frames, in order.
   */
  lemma {:induction false} EndMarkerCompletes(codec: Codec, meta: FileMeta, acc: seq<Frame>, frames: seq<Frame>)
    requires NoEndMarker(codec, frames)
    ensures Run(codec, Receiving(meta, acc), frames + [Text(FileEnd)])
            == (Idle, Repeat(Buffered, |frames|) + [Completed(meta, acc + frames)])
    decreases |frames|
  {
    if frames == [] {
      assert frames + [Text(FileEnd)] == [Text(FileEnd)] + [];
      assert Receive(codec, Receiving(meta, acc), Text(FileEnd)) == (Idle, Completed(meta, acc));
      RunCons(codec, Receiving(meta, acc), Text(FileEnd), []);
      assert Run(codec, Receiving(meta, acc), [Text(FileEnd)] + []) == (Idle, [Completed(meta, acc)] + []);
      assert acc + frames == acc;
      assert Repeat(Buffered, 0) + [Completed(meta, acc)] == [Completed(meta, acc)] + [];
    } else {
      assert Decoded(codec, frames[0]) != FileEnd;
      assert NoEndMarker(codec, frames[1..]) by {
        forall i | 0 <= i < |frames[1..]| ensures Decoded(codec, frames[1..][i]) != FileEnd {
          assert frames[1..][i] == frames[i + 1];
        }
      }
      var all := frames + [Text(FileEnd)];
      assert all[0] == frames[0];
      assert all[1..] == frames[1..] + [Text(FileEnd)];
      assert Receive(codec, Receiving(meta, acc), all[0]) == (Receiving(meta, acc + [frames[0]]), Buffered);
      EndMarkerCompletes(codec, meta, acc + [frames[0]], frames[1..]);
      var rest := Run(codec, Receiving(meta, acc + [frames[0]]), all[1..]);
      assert Run(codec, Receiving(meta, acc), all) == (rest.0, [Buffered] + rest.1);
      assert acc + [frames[0]] + frames[1..] == acc + frames;
      assert [Buffered] + Repeat(Buffered, |frames| - 1) == Repeat(Buffered, |frames|);
      assert [Buffered] + (Repeat(Buffered, |frames| - 1) + [Completed(meta, acc + frames)])
             == Repeat(Buffered, |frames|) + [Completed(meta, acc + frames)];
    }
  }

  /**
   * The framing round trip: what sendFile writes to a peer makes an idle receiver open a
   * transfer with the sent metadata, buffer each chunk, and on the end marker hand over
   * exactly the chunks sent, in order, and fall idle again. It needs the metadata to
   * survive JSON and no chunk to decode to "FILEEND" (EarlyEndMarkerTruncates shows why).
   */
  lemma FileRoundTrip(codec: Codec, meta: FileMeta, chunks: seq<Bytes>)
    requires codec.parse(codec.stringify(meta)) == Some(meta)
    requires forall i | 0 <= i < |chunks| :: codec.decode(chunks[i]) != FileEnd
    ensures Run(codec, Idle, FileFrames(codec, meta, chunks))
            == (Idle, [Opened(meta)] + Repeat(Buffered, |chunks|) + [Completed(meta, Binaries(chunks))])
  {
    var metaText := FileMetaPrefix + codec.stringify(meta);
    assert FileMetaPrefix <= metaText;
    assert metaText[|FileMetaPrefix|..] == codec.stringify(meta);
    assert Receive(codec, Idle, Text(metaText)) == (Receiving(meta, []), Opened(meta));
    var body := Binaries(chunks);
    assert NoEndMarker(codec, body) by {
      forall i | 0 <= i < |body| ensures Decoded(codec, body[i]) != FileEnd {
        assert body[i] == Binary(chunks[i]);
      }
    }
    assert FileFrames(codec, meta, chunks) == [Text(metaText)] + (body + [Text(FileEnd)]);
    RunCons(codec, Idle, Text(metaText), body + [Text(FileEnd)]);
    EndMarkerCompletes(codec, meta, [], body);
    assert [] + body == body;
    var tail := Repeat(Buffered, |chunks|) + [Completed(meta, body)];
    assert Run(codec, Idle, FileFrames(codec, meta, chunks)) == (Idle, [Opened(meta)] + tail);
    assert [Opened(meta)] + tail == [Opened(meta)] + Repeat(Buffered, |chunks|) + [Completed(meta, body)];
  }

  /**
   * Why the round trip needs its second condition: a first chunk that decodes to
   * "FILEEND" closes the transfer at once with no chunks, and the real end marker
   * then arrives as a chat line.
   */
  lemma EarlyEndMarkerTruncates(codec: Codec, meta: FileMeta, first: Bytes)
    requires codec.parse(codec.stringify(meta)) == Some(meta)
    requires codec.decode(first) == FileEnd
    ensures Run(codec, Idle, FileFrames(codec, meta, [first]))
            == (Idle, [Opened(meta), Completed(meta, []), Chat(FileEnd)])
  {
    var metaText := FileMetaPrefix + codec.stringify(meta);
    assert metaText[|FileMetaPrefix|..] == codec.stringify(meta);
    assert FileFrames(codec, meta, [first]) == [Text(metaText)] + ([Binary(first)] + ([Text(FileEnd)] + []));
    assert FileMetaPrefix <= metaText;
    assert !(FileMetaPrefix <= FileEnd) by { assert FileMetaPrefix[7] != FileEnd[6]; }
    assert Receive(codec, Idle, Text(FileEnd)) == (Idle, Chat(FileEnd));
    RunCons(codec, Idle, Text(FileEnd), []);
    assert Run(codec, Idle, [Text(FileEnd)] + []) == (Idle, [Chat(FileEnd)] + []);
    assert Receive(codec, Receiving(meta, []), Binary(first)) == (Idle, Completed(meta, []));
    RunCons(codec, Receiving(meta, []), Binary(first), [Text(FileEnd)] + []);
    assert Run(codec, Receiving(meta, []), [Binary(first)] + ([Text(FileEnd)] + []))
           == (Idle, [Completed(meta, [])] + ([Chat(FileEnd)] + []));
    assert Receive(codec, Idle, Text(metaText)) == (Receiving(meta, []), Opened(meta));
    RunCons(codec, Idle, Text(metaText), [Binary(first)] + ([Text(FileEnd)] + []));
    assert [Opened(meta)] + ([Completed(meta, [])] + ([Chat(FileEnd)] + []))
           == [Opened(meta), Completed(meta, []), Chat(FileEnd)];
  }

  /**
   * With no transfer open, chat text that does not start with "FILEMETA::" is only
   * logged: each frame becomes one chat line and the receiver stays idle.
   */
  lemma {:induction false} IdleChatOnly(codec: Codec, texts: seq<string>)
    requires forall i | 0 <= i < |texts| :: !(FileMetaPrefix <= texts[i])
    ensures var frames := seq(|texts|, i requires 0 <= i < |texts| => Text(texts[i]));
      Run(codec, Idle, frames) == (Idle, seq(|texts|, i requires 0 <= i < |texts| => Chat(texts[i])))
    decreases |texts|
  {
    var frames := seq(|texts|, i requires 0 <= i < |texts| => Text(texts[i]));
    if texts != [] {
      IdleChatOnly(codec, texts[1..]);
      var rest := seq(|texts[1..]|, i requires 0 <= i < |texts[1..]| => Text(texts[1..][i]));
      assert frames[1..] == rest;
      assert seq(|texts|, i requires 0 <= i < |texts| => Chat(texts[i]))
             == [Chat(texts[0])] + seq(|texts[1..]|, i requires 0 <= i < |texts[1..]| => Chat(texts[1..][i]));
    }
  }
}
