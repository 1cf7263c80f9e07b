/**
 * The network worker of the desktop client (client.py, `BackendWorker`) and
 * the three window actions that change its state: sending a chat line,
 * muting and deafening. Sockets are the `Stream.Socket` model (TCP) and a
 * log of accepted datagrams (UDP); what the window shows is a log of events.
 */
module Backend {
  import opened Wire
  import opened Stream
  import opened VideoWire
  import opened Reassembly

  /** A chat record, `{'u': user, 't': text}` once unpickled. */
  datatype ChatMessage = ChatMessage(user: string, text: string)

  /** What the worker signals to the window. */
  datatype UiEvent =
    | FrameReady(frame: Completed)                    // a reassembled frame handed to the image decoder
    | CameraOff(user: string, mute: bool, deaf: bool) // a tile shown as camera-off
    | ChatLine(msg: ChatMessage)                      // sig_chat
    | Disconnected                                    // sig_disconnected

  /** How one pass of `loop_tcp` ends. */
  datatype TcpOutcome =
    | PeerClosed   // empty header: the server closed the connection
    | Garbled      // the payload did not unpickle to a chat record
    | Delivered    // a chat line was shown
    | Truncated    // the stream ended inside a payload

  /** Datagrams at the positions not in `failing`: a failed `sendto` is swallowed. */
  function Kept(ps: seq<seq<byte>>, failing: set<nat>): (ks: seq<seq<byte>>)
    ensures |ks| <= |ps|
    ensures failing == {} ==> ks == ps
    ensures (forall i :: 0 <= i < |ps| ==> i in failing) ==> ks == []
  {
    if ps == [] then []
    else Kept(ps[..|ps| - 1], failing) + (if |ps| - 1 in failing then [] else [ps[|ps| - 1]])
  }

  /**
   * The worker's state. `Valid()` says: being deafened implies being muted,
   * and the frame buffer holds at most one in-flight frame per user, each
   * with at least one chunk stored.
   */
  class BackendWorker {
    /** `self.username.encode('utf-8')` */
    const username: seq<byte>
    var running: bool
    var isMute: bool
    var isDeaf: bool
    /** The modulo-256 frame counter, `frame_seq`. */
    var frameSeq: byte
    var frameBuffer: FrameBuffer
    /** Every datagram `sendto` accepted, in order. */
    var udpSent: seq<seq<byte>>
    /** `udp.close()` has not been called. */
    var udpOpen: bool
    const tcp: Socket
    /** The signals emitted to the window, in order. */
    var events: seq<UiEvent>
    /** The audio blocks written to the output stream, in order. */
    var played: seq<seq<byte>>

    predicate Valid()
      reads this
    {
      && (isDeaf ==> isMute)
      && AtMostOneSequence(frameBuffer)
      && PendingNonEmpty(frameBuffer)
    }

    constructor (username: seq<byte>, tcp: Socket)
      ensures Valid()
      ensures this.username == username && this.tcp == tcp
      ensures running && !isMute && !isDeaf && frameSeq == 0 && frameBuffer == map[]
      ensures udpSent == [] && udpOpen && events == [] && played == []
    {
      this.username := username;
      this.tcp := tcp;
      running := true;
      isMute := false;
      isDeaf := false;
      frameSeq := 0;
      frameBuffer := map[];
      udpSent := [];
      udpOpen := true;
      events := [];
      played := [];
    }

    /**
     * `send_video_fragments`: advance the counter (always, even for an empty
     * frame or one that cannot be packed), then send one packet per chunk.
     * Returns whether `struct.pack` raised, which it does before anything is
     * sent; the exception escapes to the camera loop.
     */
    method SendVideoFragments(data: seq<byte>, failing: set<nat>) returns (raised: bool)
      modifies this`frameSeq, this`udpSent
      ensures frameSeq == ((old(frameSeq) as int) + 1) % 256
      ensures raised == PackRaises(data, username)
      ensures raised ==> udpSent == old(udpSent)
      ensures !raised ==>
                var fs := FragmentsOf(frameSeq, username, EncodeFlags(isMute, isDeaf), data);
                Sendable(fs) &&
                udpSent == old(udpSent) + (if udpOpen then Kept(PacketsOf(fs), failing) else [])
    {
      frameSeq := ((frameSeq as int) + 1) % 256;
      if PackRaises(data, username) {
        return true;
      }
      raised := false;
      var fs := FragmentsOf(frameSeq, username, EncodeFlags(isMute, isDeaf), data);
      assert Sendable(fs);
      SendPackets(PacketsOf(fs), failing);
    }

    /** The `for` loop of `send_video_fragments`: each packet in turn; a failed `sendto` is swallowed. */
    method SendPackets(ps: seq<seq<byte>>, failing: set<nat>)
      modifies this`udpSent
      ensures udpSent == old(udpSent) + (if udpOpen then Kept(ps, failing) else [])
    {
      var i := 0;
      while i < |ps|
        invariant 0 <= i <= |ps|
        invariant udpSent == old(udpSent) + (if udpOpen then Kept(ps[..i], failing) else [])
      {
        assert ps[..i + 1][..i] == ps[..i];
        if udpOpen && i !in failing {
          udpSent := udpSent + [ps[i]];
        }
        i := i + 1;
      }
      assert ps[..|ps|] == ps;
    }

    /**
     * `process_fragment`, updating the frame buffer in place: the same steps
     * as `Reassembly.Accept` (create the user's buffer, clear it for a new
     * sequence, store the chunk, complete and delete), and a datagram whose
     * header does not parse changes nothing.
     */
    method ProcessFragment(data: seq<byte>)
      requires Valid()
      modifies this`frameBuffer, this`events
      ensures Valid()
      ensures frameBuffer == Step(old(frameBuffer), data).0
      ensures events == old(events) +
                (match Step(old(frameBuffer), data).1 case None => [] case Some(c) => [FrameReady(c)])
    {
      var parsed := ParsePacket(data);
      if parsed.None? {
        return;
      }
      AcceptPreservesInvariants(frameBuffer, parsed.value);
      StoreFragment(parsed.value);
    }

    /** The body of `process_fragment` after its header parsed. */
    method StoreFragment(f: Fragment)
      modifies this`frameBuffer, this`events
      ensures frameBuffer == Accept(old(frameBuffer), f).0
      ensures events == old(events) +
                (match Accept(old(frameBuffer), f).1 case None => [] case Some(c) => [FrameReady(c)])
    {
      var fb := frameBuffer;
      if f.user !in fb {
        fb := fb[f.user := map[]];
      }
      var userBuf := fb[f.user];
      if f.seqNo !in userBuf {
        userBuf := map[f.seqNo := Partial(map[])];
      }
      var frame := userBuf[f.seqNo];
      var chunks := frame.chunks[f.index := f.chunk];
      var done: Option<Completed> := None;
      AssembleEmptyIff(chunks);
      if |chunks| == f.total as int && Assemble(chunks) != [] {
        done := Some(Completed(f.user, IsMuteFlag(f.flags), IsDeafFlag(f.flags), Assemble(chunks)));
        userBuf := userBuf - {f.seqNo};
      } else {
        // also when the chunks join to nothing: the decoder raises, and the
        // handler skips the `del`
        userBuf := userBuf[f.seqNo := Partial(chunks)];
      }
      assert fb[f.user := userBuf] == frameBuffer[f.user := userBuf];
      frameBuffer := fb[f.user := userBuf];
      if done.Some? {
        events := events + [FrameReady(done.value)];
      }
    }

    /** `process_control` on an unpickled control message. */
    method ProcessControl(msg: ControlMessage)
      modifies this`played, this`events
      ensures var a := RouteControl(msg, isDeaf);
              && played == old(played) + (if a.Play? then [a.samples] else [])
              && events == old(events) + (if a.ShowCameraOff? then [CameraOff(a.user, a.mute, a.deaf)] else [])
    {
      match RouteControl(msg, isDeaf)
      case Play(samples) =>
        played := played + [samples];
      case ShowCameraOff(u, m, d) =>
        events := events + [CameraOff(u, m, d)];
      case Ignore =>
    }

    /**
     * One pass of `loop_udp` on a received datagram: fragments go to the
     * reassembly, everything else to `pickle.loads` (here `decode`, None
     * when it raises) and then to the control handler; an empty datagram or
     * one that does not unpickle is dropped.
     */
    method LoopUdpOnce(d: seq<byte>, decode: seq<byte> -> Option<ControlMessage>)
      requires Valid()
      modifies this`frameBuffer, this`events, this`played
      ensures Valid()
      ensures Dispatch(d) == ToFragment ==>
                && frameBuffer == Step(old(frameBuffer), d).0 && played == old(played)
                && events == old(events) +
                     (match Step(old(frameBuffer), d).1 case None => [] case Some(c) => [FrameReady(c)])
      ensures Dispatch(d) != ToFragment ==> frameBuffer == old(frameBuffer)
      ensures (Dispatch(d) == Dropped || decode(d).None?) && Dispatch(d) != ToFragment ==>
                events == old(events) && played == old(played)
      ensures Dispatch(d) == ToControl && decode(d).Some? ==>
                var a := RouteControl(decode(d).value, isDeaf);
                && played == old(played) + (if a.Play? then [a.samples] else [])
                && events == old(events) + (if a.ShowCameraOff? then [CameraOff(a.user, a.mute, a.deaf)] else [])
    {
      match Dispatch(d)
      case Dropped =>
      case ToFragment =>
        ProcessFragment(d);
      case ToControl =>
        var msg := decode(d);
        if msg.Some? {
          ProcessControl(msg.value);
        }
    }

    /**
     * `audio_callback`: a captured block goes out as an `audio` control
     * datagram (`pickled`, its serialisation) only while running, unmuted and
     * undeafened.
     */
    method AudioCallback(pickled: seq<byte>, sendFails: bool)
      modifies this`udpSent
      ensures udpSent == old(udpSent) + (if running && !isMute && !isDeaf && udpOpen && !sendFails then [pickled] else [])
    {
      if running && !isMute && !isDeaf {
        if udpOpen && !sendFails {
          udpSent := udpSent + [pickled];
        }
      }
    }

    /**
     * `action_mute`: refused while deafened (only a warning is shown);
     * otherwise toggles mute.
     */
    method ActionMute()
      requires Valid()
      modifies this`isMute
      ensures Valid()
      ensures isMute == if old(isDeaf) then old(isMute) else !old(isMute)
    {
      if isDeaf {
        return;
      }
      isMute := !isMute;
    }

    /** `action_deaf`: toggles deaf, and mute follows it. */
    method ActionDeaf()
      requires Valid()
      modifies this`isMute, this`isDeaf
      ensures Valid()
      ensures isDeaf == !old(isDeaf) && isMute == isDeaf
    {
      isDeaf := !isDeaf;
      if isDeaf {
        isMute := true;
      } else {
        isMute := false;
      }
    }

    /**
     * `action_send_chat`: a non-empty line is pickled (`pickled`), framed and
     * written with `sendall`; the line is echoed locally only when the write
     * succeeded. A length that does not fit the 4-byte header, or a failed
     * write, is swallowed and nothing is echoed.
     */
    method ActionSendChat(text: string, pickled: seq<byte>) returns (echoed: bool)
      modifies tcp`outgoing
      ensures echoed <==> text != [] && Frame(pickled).Some? && !tcp.closed && !tcp.peerGone
      ensures tcp.outgoing == old(tcp.outgoing) + (if echoed then Frame(pickled).value else [])
    {
      echoed := false;
      if text != [] {
        var framed := Frame(pickled);
        if framed.Some? {
          var r := tcp.SendAll(framed.value);
          echoed := r == Sent;
        }
      }
    }

    /**
     * One pass of `loop_tcp`, with the payload loop stopping when the peer
     * has closed (see `InnerLoopAsWritten` for the loop as the source writes
     * it): read a header, then the payload, then unpickle (`decode`) and show
     * the line. An empty header, a payload that does not unpickle, or a
     * stream that ends inside a payload stops the worker.
     */
    method LoopTcpOnce(decode: seq<byte> -> Option<ChatMessage>) returns (header: seq<byte>, payload: seq<byte>, outcome: TcpOutcome)
      modifies tcp`incoming, this`running, this`events
      ensures old(tcp.incoming) == header + payload + tcp.incoming
      ensures outcome == PeerClosed <==> old(tcp.incoming) == []
      ensures outcome == Truncated <==> header != [] && |payload| < FromBigEndian(header)
      ensures outcome == Delivered <==>
                header != [] && |payload| == FromBigEndian(header) && decode(payload).Some?
      ensures outcome == Delivered ==> events == old(events) + [ChatLine(decode(payload).value)] && running == old(running)
      ensures outcome != Delivered ==> events == old(events) + [Disconnected] && !running
      ensures |header| == 4 && ParseFrame(old(tcp.incoming)).Some? ==>
                (payload, tcp.incoming) == ParseFrame(old(tcp.incoming)).value
    {
      header, payload := ReadMessage(tcp);
      if header == [] {
        outcome := PeerClosed;
      } else if |payload| < FromBigEndian(header) {
        outcome := Truncated;
      } else {
        var msg := decode(payload);
        if msg.Some? {
          events := events + [ChatLine(msg.value)];
          return header, payload, Delivered;
        }
        outcome := Garbled;
      }
      running := false;
      events := events + [Disconnected];
    }

    /** `stop`: clear the flag and close both sockets. */
    method Stop()
      modifies this`running, this`udpOpen, tcp`closed
      ensures !running && !udpOpen && tcp.closed
    {
      running := false;
      udpOpen := false;
      tcp.Close();
    }
  }

  /** Failures only at positions past the end drop nothing. */
  lemma {:induction false} KeptPastEnd(ps: seq<seq<byte>>, failing: set<nat>)
    requires forall j :: j in failing ==> j >= |ps|
    ensures Kept(ps, failing) == ps
  {
    if ps != [] {
      KeptPastEnd(ps[..|ps| - 1], failing);
    }
  }

  /**
   * One failed `sendto` loses exactly that datagram: the others of the frame
   * still go out, in order.
   */
  lemma {:induction false} OneFailureDropsOne(ps: seq<seq<byte>>, i: nat)
    requires i < |ps|
    ensures Kept(ps, {i}) == ps[..i] + ps[i + 1..]
  {
    var n := |ps| - 1;
    if i == n {
      KeptPastEnd(ps[..n], {i});
      assert ps[i + 1..] == [];
    } else {
      OneFailureDropsOne(ps[..n], i);
      assert ps[..n][..i] == ps[..i];
      assert ps[..n][i + 1..] + [ps[n]] == ps[i + 1..];
    }
  }

  /**
   * The payload loop of `loop_tcp` exactly as written, `while len(d) < l: d
   * += recv(l - len(d))`, for `steps` iterations against a peer that sent
   * `rest` and then closed, so that every later `recv` returns nothing.
   */
  function InnerLoopAsWritten(d: seq<byte>, rest: seq<byte>, l: nat, steps: nat): (r: (seq<byte>, seq<byte>))
    ensures r.0 + r.1 == d + rest
    decreases steps
  {
    if steps == 0 || |d| >= l then (d, rest)
    else
      var k := Min(l - |d|, |rest|);
      assert (d + rest[..k]) + rest[k..] == d + rest;
      InnerLoopAsWritten(d + rest[..k], rest[k..], l, steps - 1)
  }

  /**
   * When the peer closes before the announced length has arrived, the loop
   * condition still holds after any number of iterations: the reader spins
   * forever, and neither `running` nor the exception handler ever ends it.
   */
  lemma {:induction false} InnerLoopNeverExits(d: seq<byte>, rest: seq<byte>, l: nat, steps: nat)
    requires |d| + |rest| < l
    ensures |InnerLoopAsWritten(d, rest, l, steps).0| < l
    decreases steps
  {
    if steps > 0 {
      var k := Min(l - |d|, |rest|);
      InnerLoopNeverExits(d + rest[..k], rest[k..], l, steps - 1);
    }
  }

  /** The concrete case: a 10-byte header announcement followed by 3 bytes and a close. */
  lemma TruncatedChatSpins(steps: nat)
    ensures |InnerLoopAsWritten([], [1, 2, 3], 10, steps).0| < 10
    ensures FromBigEndian([0, 0, 0, 10]) == 10
  {
    InnerLoopNeverExits([], [1, 2, 3], 10, steps);
    FromBigEndianOfFour(0, 0, 0, 10);
  }
}
