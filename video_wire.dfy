/**
 * The datagram formats of the desktop client (client.py): how one encoded
 * video frame is cut into chunks and each chunk wrapped in a fragment
 * header, how a receiver parses that header back, the mute/deaf flag byte,
 * and how an incoming datagram is routed by its first byte.
 */
module VideoWire {
  import opened Wire

  /** The largest chunk of a frame one datagram carries. */
  const MAX_PACKET_SIZE: nat := 60000
  /** The first byte of every fragment datagram. */
  const FRAGMENT_MARKER: byte := 0xFF

  function Concat(cs: seq<seq<byte>>): seq<byte>
  {
    if cs == [] then [] else cs[0] + Concat(cs[1..])
  }

  /**
   * `[data[i:i+MAX_PACKET_SIZE] for i in range(0, len(data), MAX_PACKET_SIZE)]`:
   * non-empty chunks of at most MAX_PACKET_SIZE bytes that put back together
   * give the frame.
   */
  function Chunks(data: seq<byte>): (cs: seq<seq<byte>>)
    ensures forall i :: 0 <= i < |cs| ==> 0 < |cs[i]| <= MAX_PACKET_SIZE
    ensures Concat(cs) == data
    decreases |data|
  {
    if |data| == 0 then []
    else if |data| <= MAX_PACKET_SIZE then
      assert Concat([data]) == data + Concat([]);
      [data]
    else
      var rest := Chunks(data[MAX_PACKET_SIZE..]);
      var cs := [data[..MAX_PACKET_SIZE]] + rest;
      assert cs[1..] == rest;
      assert data == data[..MAX_PACKET_SIZE] + data[MAX_PACKET_SIZE..];
      cs
  }

  /** There are ceil(len / MAX_PACKET_SIZE) chunks, `len(range(0, len(data), MAX_PACKET_SIZE))`. */
  lemma {:induction false} ChunkCount(data: seq<byte>)
    ensures |Chunks(data)| == (|data| + MAX_PACKET_SIZE - 1) / MAX_PACKET_SIZE
    decreases |data|
  {
    if |data| > MAX_PACKET_SIZE {
      ChunkCount(data[MAX_PACKET_SIZE..]);
    }
  }

  /** Chunk k is the slice the comprehension takes at offset k * MAX_PACKET_SIZE. */
  lemma {:induction false} ChunkAt(data: seq<byte>, k: nat)
    requires k < |Chunks(data)|
    ensures k * MAX_PACKET_SIZE < |data|
    ensures Chunks(data)[k] == data[k * MAX_PACKET_SIZE .. Min(k * MAX_PACKET_SIZE + MAX_PACKET_SIZE, |data|)]
    decreases k
  {
    if k > 0 {
      assert |data| > MAX_PACKET_SIZE;
      assert Chunks(data)[k] == Chunks(data[MAX_PACKET_SIZE..])[k - 1];
      ChunkAt(data[MAX_PACKET_SIZE..], k - 1);
      ShiftSlice(data, k);
    }
  }

  /** Chunk k - 1 of what follows the first chunk is the slice of the whole at offset k * MAX_PACKET_SIZE. */
  lemma ShiftSlice(data: seq<byte>, k: nat)
    requires 0 < k && MAX_PACKET_SIZE < |data| && (k - 1) * MAX_PACKET_SIZE < |data| - MAX_PACKET_SIZE
    ensures k * MAX_PACKET_SIZE < |data|
    ensures data[MAX_PACKET_SIZE..][(k - 1) * MAX_PACKET_SIZE .. Min((k - 1) * MAX_PACKET_SIZE + MAX_PACKET_SIZE, |data| - MAX_PACKET_SIZE)]
         == data[k * MAX_PACKET_SIZE .. Min(k * MAX_PACKET_SIZE + MAX_PACKET_SIZE, |data|)]
  {
    var lo := (k - 1) * MAX_PACKET_SIZE;
    assert k * MAX_PACKET_SIZE == lo + MAX_PACKET_SIZE;
  }

  /**
   * One fragment as it travels: the frame counter, the chunk's position and
   * the number of chunks, the sender's UTF-8 user name, the flag byte, and the
   * chunk itself.
   */
  datatype Fragment = Fragment(seqNo: byte, index: byte, total: byte, user: seq<byte>, flags: byte, chunk: seq<byte>)

  /**
   * `struct.pack("BBBBB", 0xFF, seq, i, total, len(user_b)) + user_b +
   * struct.pack("B", flags) + chunk`.
   */
  function Packet(f: Fragment): (p: seq<byte>)
    requires |f.user| < 256
    ensures |p| == 6 + |f.user| + |f.chunk| && p[0] == FRAGMENT_MARKER
  {
    [FRAGMENT_MARKER, f.seqNo, f.index, f.total, |f.user|] + f.user + [f.flags] + f.chunk
  }

  /**
   * `struct.pack` raises struct.error for a field above 255. The first packet
   * already carries `total` and the name length, so a frame of more than 255
   * chunks or a name of more than 255 bytes raises before anything is sent;
   * an empty frame packs nothing and so never raises.
   */
  predicate PackRaises(data: seq<byte>, user: seq<byte>)
  {
    |data| > 0 && (|Chunks(data)| > 255 || |user| > 255)
  }

  /**
   * In terms of lengths: packing raises exactly for a frame of more than
   * 255 * 60000 bytes, or for a non-empty frame under a name of more than
   * 255 bytes.
   */
  lemma PackRaisesExactly(data: seq<byte>, user: seq<byte>)
    ensures PackRaises(data, user) <==> |data| > 255 * MAX_PACKET_SIZE || (|data| > 0 && |user| > 255)
  {
    ChunkCount(data);
  }

  /** The fragments one call of `send_video_fragments` produces for counter value seqNo. */
  function FragmentsOf(seqNo: byte, user: seq<byte>, flags: byte, data: seq<byte>): (fs: seq<Fragment>)
    requires !PackRaises(data, user)
    ensures |fs| == |Chunks(data)| <= 255
    ensures forall i :: 0 <= i < |fs| ==>
              && fs[i].seqNo == seqNo && fs[i].index == i && fs[i].total == |fs|
              && fs[i].user == user && fs[i].flags == flags
              && 0 < |fs[i].chunk| <= MAX_PACKET_SIZE
    ensures Concat(ChunksOf(fs)) == data
  {
    var cs := Chunks(data);
    var fs := seq(|cs|, i requires 0 <= i < |cs| => Fragment(seqNo, i, |cs|, user, flags, cs[i]));
    assert ChunksOf(fs) == cs;
    fs
  }

  function ChunksOf(fs: seq<Fragment>): (cs: seq<seq<byte>>)
    ensures |cs| == |fs| && forall i :: 0 <= i < |fs| ==> cs[i] == fs[i].chunk
  {
    seq(|fs|, i requires 0 <= i < |fs| => fs[i].chunk)
  }

  predicate Sendable(fs: seq<Fragment>)
  {
    forall i :: 0 <= i < |fs| ==> |fs[i].user| < 256
  }

  function PacketsOf(fs: seq<Fragment>): (ps: seq<seq<byte>>)
    requires Sendable(fs)
    ensures |ps| == |fs| && forall i :: 0 <= i < |fs| ==> ps[i] == Packet(fs[i])
  {
    seq(|fs|, i requires 0 <= i < |fs| => Packet(fs[i]))
  }

  /**
   * The header parse of `process_fragment`. It fails (the code's exception
   * handler drops the datagram) when `data[1:5]` is not four bytes, when the
   * flag byte after the name is missing, or when the name is not UTF-8. It
   * does not check the marker (the dispatcher did) nor that index < total.
   */
  function ParsePacket(d: seq<byte>): (r: Option<Fragment>)
    ensures r.Some? ==> |d| > 0 && |r.value.user| < 256 && IsUtf8(r.value.user)
    ensures r.Some? ==> Packet(r.value)[1..] == d[1..]
  {
    if |d| < 5 then None
    else
      var ulen: nat := d[4];
      if |d| < 6 + ulen then None
      else if !IsUtf8(d[5..5 + ulen]) then None
      else
        var f := Fragment(d[1], d[2], d[3], d[5..5 + ulen], d[5 + ulen], d[6 + ulen..]);
        assert d[1..] == [d[1], d[2], d[3], d[4]] + d[5..5 + ulen] + [d[5 + ulen]] + d[6 + ulen..];
        Some(f)
  }

  /** The header round trip: parsing a packet recovers every field it was built from. */
  lemma ParsePacketRoundTrip(f: Fragment)
    requires |f.user| < 256 && IsUtf8(f.user)
    ensures ParsePacket(Packet(f)) == Some(f)
  {
    var p := Packet(f);
    var n := |f.user|;
    assert p[5..5 + n] == f.user;
    assert p[5 + n] == f.flags;
    assert p[6 + n..] == f.chunk;
  }

  /** `(is_mute << 1) | is_deaf`, which the receiver decodes back to the same two booleans. */
  function EncodeFlags(mute: bool, deaf: bool): (f: byte)
    ensures f < 4
    ensures IsMuteFlag(f) == mute && IsDeafFlag(f) == deaf
  {
    ((((if mute then 1 else 0) as bv8) << 1) | ((if deaf then 1 else 0) as bv8)) as int
  }

  /** `bool(flags & 2)` */
  predicate IsMuteFlag(f: byte) { (f as bv8) & 2 != 0 }

  /** `bool(flags & 1)` */
  predicate IsDeafFlag(f: byte) { (f as bv8) & 1 != 0 }

  /** Where `loop_udp` sends a datagram. */
  datatype Route =
    | Dropped      // `data[0]` raises on an empty datagram; the handler swallows it
    | ToFragment   // first byte 0xFF
    | ToControl    // anything else, handed to `pickle.loads`

  function Dispatch(d: seq<byte>): (r: Route)
    ensures r == Dropped <==> d == []
    ensures r == ToFragment <==> |d| > 0 && d[0] == FRAGMENT_MARKER
  {
    if d == [] then Dropped
    else if d[0] == FRAGMENT_MARKER then ToFragment
    else ToControl
  }

  lemma PacketsGoToFragments(f: Fragment)
    requires |f.user| < 256
    ensures Dispatch(Packet(f)) == ToFragment
  {
  }

  /**
   * Control datagrams are `pickle.dumps(obj, 5)`, which starts with the PROTO
   * opcode 0x80, so they never reach the fragment path.
   */
  lemma PickledGoToControl(d: seq<byte>)
    requires |d| > 0 && d[0] == 0x80
    ensures Dispatch(d) == ToControl
  {
  }

  /** A decoded control datagram; `pickle.loads` itself is not part of this model. */
  datatype ControlMessage =
    | Hello(user: string)
    | Offcam(user: string, mute: bool, deaf: bool)
    | AudioBlock(user: string, samples: seq<byte>)
    | OtherType

  datatype ControlAction =
    | Play(samples: seq<byte>)
    | ShowCameraOff(user: string, mute: bool, deaf: bool)
    | Ignore

  /**
   * `process_control`: audio is played unless this client is deafened, and
   * only when `np.frombuffer(..., int16)` accepts it (an even number of
   * bytes; otherwise it raises and the handler drops it); an `offcam` notice
   * shows the sender's tile as camera-off; everything else is ignored.
   */
  function RouteControl(msg: ControlMessage, isDeaf: bool): (a: ControlAction)
    ensures a.Play? <==> msg.AudioBlock? && !isDeaf && |msg.samples| % 2 == 0
    ensures a.Play? ==> a.samples == msg.samples
    ensures a.ShowCameraOff? <==> msg.Offcam?
    ensures a.ShowCameraOff? ==> a == ShowCameraOff(msg.user, msg.mute, msg.deaf)
  {
    match msg
    case AudioBlock(_, samples) =>
      if !isDeaf && |samples| % 2 == 0 then Play(samples) else Ignore
    case Offcam(u, m, d) => ShowCameraOff(u, m, d)
    case _ => Ignore
  }
}
