/**
 * The console conference client (clientmulti.py, `AVClient`): one TCP
 * stream each for audio, video and chat, every message length-prefixed;
 * every message the server relays starts with the 36-character id of its
 * sender, and a client drops its own. Received audio blocks wait in a
 * bounded jitter buffer that evicts its oldest block when full and is
 * drained first-in first-out by the playback thread.
 */
module AvClient {
  import opened Wire
  import opened Stream

  /** `JITTER_BUFFER_SIZE` */
  const JITTER_BUFFER_SIZE: nat := 5
  /** The length of a client id, the textual form of a UUID (section 3 of RFC 4122). */
  const ID_LENGTH: nat := 36

  /** The last n elements of s: what a `deque(maxlen=n)` holds after appending all of s. */
  function Window<T>(s: seq<T>, n: nat): (w: seq<T>)
    ensures |w| == Min(|s|, n)
    ensures w == s[|s| - |w|..]
  {
    if |s| <= n then s else s[|s| - n..]
  }

  /** Appending to the window of s is the window of s with the new element: no append loses track. */
  lemma WindowSnoc<T>(s: seq<T>, x: T, n: nat)
    ensures Window(Window(s, n) + [x], n) == Window(s + [x], n)
  {
    if |s| > n && n > 0 {
      assert (s[|s| - n..] + [x])[1..] == (s + [x])[|s| + 1 - n..];
    }
  }

  /** A full deque drops its oldest element and keeps the others, in order, before the new one. */
  lemma AppendToFull<T>(s: seq<T>, x: T, n: nat)
    requires |s| == n > 0
    ensures Window(s + [x], n) == s[1..] + [x]
  {
    assert (s + [x])[1..] == s[1..] + [x];
  }

  /** `deque(maxlen=...)` of audio blocks. */
  class JitterBuffer {
    const maxLen: nat
    var blocks: seq<seq<byte>>

    predicate Valid()
      reads this
    {
      |blocks| <= maxLen
    }

    constructor (maxLen: nat)
      ensures Valid() && this.maxLen == maxLen && blocks == []
    {
      this.maxLen := maxLen;
      blocks := [];
    }

    /** `append`: at the back; when full, the front block is evicted first. */
    method Append(b: seq<byte>)
      requires Valid()
      modifies this`blocks
      ensures Valid()
      ensures blocks == Window(old(blocks) + [b], maxLen)
    {
      if maxLen == 0 {
        return;
      }
      if |blocks| == maxLen {
        AppendToFull(blocks, b, maxLen);
        blocks := blocks[1..] + [b];
      } else {
        blocks := blocks + [b];
      }
    }

    /** `popleft` */
    method PopLeft() returns (b: seq<byte>)
      requires Valid() && blocks != []
      modifies this`blocks
      ensures Valid()
      ensures b == old(blocks)[0] && blocks == old(blocks)[1..]
    {
      b := blocks[0];
      blocks := blocks[1..];
    }
  }

  /**
   * The first 36 bytes of a relayed payload, the sender id, and the rest, the
   * body; Python's slices give a shorter id and an empty body when the
   * payload is short.
   */
  function SplitSender(payload: seq<byte>): (r: (seq<byte>, seq<byte>))
    ensures r.0 + r.1 == payload
    ensures |r.0| == Min(ID_LENGTH, |payload|)
  {
    var k := Min(ID_LENGTH, |payload|);
    (payload[..k], payload[k..])
  }

  /** A payload built as id + body splits back into the same id and body. */
  lemma SplitSenderRoundTrip(id: seq<byte>, body: seq<byte>)
    requires |id| == ID_LENGTH
    ensures SplitSender(id + body) == (id, body)
  {
    assert (id + body)[..ID_LENGTH] == id;
    assert (id + body)[ID_LENGTH..] == body;
  }

  /** Whether a relayed payload is kept: its id decodes and is not this client's own. */
  predicate FromOther(payload: seq<byte>, clientId: seq<byte>)
  {
    IsUtf8(SplitSender(payload).0) && SplitSender(payload).0 != clientId
  }

  /** The client's own messages, echoed back, are never kept. */
  lemma OwnEchoDropped(clientId: seq<byte>, body: seq<byte>)
    requires |clientId| == ID_LENGTH
    ensures !FromOther(clientId + body, clientId)
  {
    SplitSenderRoundTrip(clientId, body);
  }

  /** Another client's message, with an ASCII id such as a UUID, is kept. */
  lemma OtherSenderKept(id: seq<byte>, clientId: seq<byte>, body: seq<byte>)
    requires |id| == ID_LENGTH && IsAscii(id) && id != clientId
    ensures FromOther(id + body, clientId) && SplitSender(id + body).1 == body
  {
    SplitSenderRoundTrip(id, body);
    AsciiIsUtf8(id);
  }

  /**
   * What the multi-port server relays is `pickle.dumps({...})`, which
   * starts with the PROTO opcode 0x80; such a payload's first 36 bytes never
   * decode as UTF-8, so no receive loop keeps it.
   */
  lemma PickledRelayRejected(payload: seq<byte>, clientId: seq<byte>)
    requires |payload| > 0 && payload[0] == 0x80
    ensures !IsUtf8(SplitSender(payload).0) && !FromOther(payload, clientId)
  {
    var id := SplitSender(payload).0;
    assert id[0] == 0x80;
    assert LeadWidth(id) == 0;
  }

  /** How `send_data` ended. */
  datatype SendOutcome =
    | Skipped     // not running: nothing is done
    | Written     // the whole message went out
    | Warned      // BrokenPipeError / ConnectionResetError: a warning only
    | Fatal       // any other exception: the client is stopped

  /** Whether a receive loop goes round again. */
  datatype LoopStep = Continue | Break

  class AVClient {
    var running: bool
    /** `str(uuid.uuid4())`, as bytes. */
    const clientId: seq<byte>
    const jitter: JitterBuffer
    const audio: Socket
    const video: Socket
    const chat: Socket
    /** The blocks written to the audio output stream, in order. */
    var played: seq<seq<byte>>
    /** `video_frames`: the last decodable frame of each sender. */
    var frames: map<string, seq<byte>>
    /** The chat lines printed, in order. */
    var chatLog: seq<(string, string)>

    predicate Valid()
      reads this, jitter
    {
      jitter.Valid() && jitter.maxLen == JITTER_BUFFER_SIZE
    }

    /** `__init__`: running unless opening the camera or the speaker failed. */
    constructor (clientId: seq<byte>, hardwareOk: bool, audio: Socket, video: Socket, chat: Socket)
      ensures Valid() && fresh(jitter) && jitter.blocks == []
      ensures running == hardwareOk && this.clientId == clientId
      ensures this.audio == audio && this.video == video && this.chat == chat
      ensures played == [] && frames == map[] && chatLog == []
    {
      running := hardwareOk;
      this.clientId := clientId;
      jitter := new JitterBuffer(JITTER_BUFFER_SIZE);
      this.audio := audio;
      this.video := video;
      this.chat := chat;
      played := [];
      frames := map[];
      chatLog := [];
    }

    /**
     * `stop`: does nothing once the client is stopped; otherwise clears the
     * flag and closes the three sockets.
     */
    method Stop()
      modifies this`running, audio`closed, video`closed, chat`closed
      ensures !running
      ensures !old(running) ==>
                && audio.closed == old(audio.closed) && video.closed == old(video.closed)
                && chat.closed == old(chat.closed)
      ensures old(running) ==> audio.closed && video.closed && chat.closed
    {
      if !running {
        return;
      }
      running := false;
      audio.Close();
      video.Close();
      chat.Close();
    }

    /**
     * `send_data`: nothing unless running; otherwise the 4-byte big-endian
     * length and the data in one `sendall`. A peer that is gone only draws a
     * warning; a length that does not fit in 4 bytes, or a socket this end
     * has closed, stops the client.
     */
    method SendData(sock: Socket, data: seq<byte>) returns (outcome: SendOutcome)
      modifies sock`outgoing, this`running, audio`closed, video`closed, chat`closed
      ensures !old(running) ==> outcome == Skipped
      ensures old(running) && Frame(data).None? ==> outcome == Fatal
      ensures old(running) && Frame(data).Some? ==>
                outcome == (if old(sock.closed) then Fatal else if sock.peerGone then Warned else Written)
      ensures sock.outgoing == old(sock.outgoing) + (if outcome == Written then Frame(data).value else [])
      ensures outcome == Fatal ==> !running && audio.closed && video.closed && chat.closed
      ensures outcome != Fatal ==>
                && running == old(running)
                && audio.closed == old(audio.closed) && video.closed == old(video.closed)
                && chat.closed == old(chat.closed)
    {
      if !running {
        return Skipped;
      }
      var message := Frame(data);
      if message.None? {
        Stop();
        return Fatal;
      }
      var r := sock.SendAll(message.value);
      if r == Sent {
        outcome := Written;
      } else if r == PeerGone {
        outcome := Warned;
      } else {
        Stop();
        outcome := Fatal;
      }
    }

    /**
     * One pass of `receive_audio`: read a relayed message; an empty header
     * ends the loop; an id that is not UTF-8, or a body of an odd number of
     * bytes (`np.frombuffer` as int16 raises), ends it too; a block from
     * another client joins the jitter buffer. A payload cut short by the
     * peer closing is used as it is, as the source does.
     */
    method ReceiveAudioOnce() returns (header: seq<byte>, payload: seq<byte>, step: LoopStep)
      requires Valid()
      modifies audio`incoming, jitter`blocks
      ensures Valid()
      ensures old(audio.incoming) == header + payload + audio.incoming
      ensures |payload| <= FromBigEndian(header)
      ensures step == Continue <==>
                header != [] && IsUtf8(SplitSender(payload).0) &&
                (SplitSender(payload).0 != clientId ==> |SplitSender(payload).1| % 2 == 0)
      ensures jitter.blocks ==
                if step == Continue && FromOther(payload, clientId)
                then Window(old(jitter.blocks) + [SplitSender(payload).1], JITTER_BUFFER_SIZE)
                else old(jitter.blocks)
    {
      header, payload := ReadMessage(audio);
      if header == [] {
        return header, payload, Break;
      }
      var (id, body) := SplitSender(payload);
      if !IsUtf8(id) {
        return header, payload, Break;
      }
      if id != clientId {
        if |body| % 2 != 0 {
          return header, payload, Break;
        }
        jitter.Append(body);
      }
      step := Continue;
    }

    /**
     * One pass of `receive_video`: as for audio, but every exception goes
     * round again; the body is unpickled (`decode`, None when it raises) to
     * a user name and an encoded frame, which is kept when it decodes to an
     * image (`imageOk`).
     */
    method ReceiveVideoOnce(decode: seq<byte> -> Option<(string, seq<byte>)>, imageOk: seq<byte> -> bool)
      returns (header: seq<byte>, payload: seq<byte>, step: LoopStep)
      modifies video`incoming, this`frames
      ensures old(video.incoming) == header + payload + video.incoming
      ensures step == Break <==> header == []
      ensures var d := decode(SplitSender(payload).1);
              frames == if header != [] && FromOther(payload, clientId) && d.Some? && imageOk(d.value.1)
                        then old(frames)[d.value.0 := d.value.1]
                        else old(frames)
    {
      header, payload := ReadMessage(video);
      if header == [] {
        return header, payload, Break;
      }
      step := Continue;
      var (id, body) := SplitSender(payload);
      if IsUtf8(id) && id != clientId {
        var d := decode(body);
        if d.Some? && imageOk(d.value.1) {
          frames := frames[d.value.0 := d.value.1];
        }
      }
    }

    /**
     * One pass of `receive_chat`: as for audio, with the body unpickled
     * (`decode`) to a user name and a text that are printed; a body that
     * does not unpickle ends the loop.
     */
    method ReceiveChatOnce(decode: seq<byte> -> Option<(string, string)>)
      returns (header: seq<byte>, payload: seq<byte>, step: LoopStep)
      modifies chat`incoming, this`chatLog
      ensures old(chat.incoming) == header + payload + chat.incoming
      ensures step == Continue <==>
                header != [] && IsUtf8(SplitSender(payload).0) &&
                (SplitSender(payload).0 != clientId ==> decode(SplitSender(payload).1).Some?)
      ensures chatLog ==
                if step == Continue && FromOther(payload, clientId)
                then old(chatLog) + [decode(SplitSender(payload).1).value]
                else old(chatLog)
    {
      header, payload := ReadMessage(chat);
      if header == [] {
        return header, payload, Break;
      }
      var (id, body) := SplitSender(payload);
      if !IsUtf8(id) {
        return header, payload, Break;
      }
      if id != clientId {
        var line := decode(body);
        if line.None? {
          return header, payload, Break;
        }
        chatLog := chatLog + [line.value];
      }
      step := Continue;
    }

    /** One pass of `audio_playback_thread`: play the oldest block, if any. */
    method PlaybackOnce()
      requires Valid()
      modifies jitter`blocks, this`played
      ensures Valid()
      ensures old(jitter.blocks) == [] ==> jitter.blocks == [] && played == old(played)
      ensures old(jitter.blocks) != [] ==>
                && played == old(played) + [old(jitter.blocks)[0]]
                && jitter.blocks == old(jitter.blocks)[1..]
    {
      if |jitter.blocks| > 0 {
        var b := jitter.PopLeft();
        played := played + [b];
      }
    }
  }
}
