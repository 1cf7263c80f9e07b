/**
 * The receiving half of the video path of the desktop client (client.py,
 * `process_fragment`): the per-user frame buffer that collects the chunks of
 * one frame until the number of distinct indices stored equals the chunk
 * count announced by the fragment that has just arrived, and then hands
 * their concatenation, in index order, to the image decoder.
 *
 * The frame buffer is a value here; the worker class in backend.dfy holds it
 * as a field and updates it in place, specified by `Accept`.
 */
module Reassembly {
  import opened Wire
  import opened VideoWire

  /**
   * `{'chunks': {...}, 'total': total, 'ts': ...}`: the chunks of one frame
   * received so far, by index. The stored total and time stamp are written
   * but never read, so they are not modelled.
   */
  datatype Partial = Partial(chunks: map<byte, seq<byte>>)

  /** One user's in-flight frames, by sequence number. */
  type UserBuffer = map<byte, Partial>

  /** `frame_buffer`, keyed by the (UTF-8 encoded) user name. */
  type FrameBuffer = map<seq<byte>, UserBuffer>

  /** A reassembled frame, as handed to the decoder, with the sender's flags. */
  datatype Completed = Completed(user: seq<byte>, mute: bool, deaf: bool, data: seq<byte>)

  function UserBufferOf(fb: FrameBuffer, user: seq<byte>): UserBuffer
  {
    if user in fb then fb[user] else map[]
  }

  /** The buffer invariant: each user has at most one frame in flight. */
  predicate AtMostOneSequence(fb: FrameBuffer)
  {
    forall u :: u in fb ==> |fb[u]| <= 1
  }

  /** Every in-flight frame holds at least one chunk: a frame is only created to store one. */
  predicate PendingNonEmpty(fb: FrameBuffer)
  {
    forall u, s :: u in fb && s in fb[u] ==> 0 < |fb[u][s].chunks|
  }

  /** `b''.join(c for _, c in sorted(chunks.items()))`, walking the keys from i up to 255. */
  function AssembleFrom(chunks: map<byte, seq<byte>>, i: nat): seq<byte>
    requires i <= 256
    decreases 256 - i
  {
    if i == 256 then []
    else (if (i as byte) in chunks then chunks[i as byte] else []) + AssembleFrom(chunks, i + 1)
  }

  function Assemble(chunks: map<byte, seq<byte>>): seq<byte>
  {
    AssembleFrom(chunks, 0)
  }

  /** Some stored chunk is non-empty. */
  predicate HasData(chunks: map<byte, seq<byte>>)
  {
    exists k :: k in chunks && chunks[k] != []
  }

  lemma {:induction false} AssembleFromEmpty(chunks: map<byte, seq<byte>>, i: nat)
    requires i <= 256
    ensures AssembleFrom(chunks, i) == [] <==> forall k: byte :: i <= k as int && k in chunks ==> chunks[k] == []
    decreases 256 - i
  {
    if i < 256 {
      AssembleFromEmpty(chunks, i + 1);
    }
  }

  /** The chunks join to nothing exactly when every one of them is empty. */
  lemma AssembleEmptyIff(chunks: map<byte, seq<byte>>)
    ensures Assemble(chunks) != [] <==> HasData(chunks)
  {
    AssembleFromEmpty(chunks, 0);
  }

  /** The chunks of f's frame once f's chunk is stored (in a fresh frame if f's sequence is not in flight). */
  function Stored(fb: FrameBuffer, f: Fragment): map<byte, seq<byte>>
  {
    var ub := UserBufferOf(fb, f.user);
    (if f.seqNo in ub then ub[f.seqNo].chunks else map[])[f.index := f.chunk]
  }

  /**
   * One fragment that parsed: create the user's buffer if needed; if the
   * fragment's sequence is not in flight, clear the user's buffer and start
   * a new frame; store the chunk under its index (a duplicate overwrites);
   * once the number of distinct indices equals this fragment's total, emit
   * the chunks in index order and drop the frame. When those chunks join to
   * nothing (every one is empty, `AssembleEmptyIff`), the decoder raises
   * before the frame is dropped, and the exception handler leaves it stored
   * with nothing emitted.
   */
  function Accept(fb: FrameBuffer, f: Fragment): (r: (FrameBuffer, Option<Completed>))
    ensures f.user in r.0 && r.0 == fb[f.user := r.0[f.user]]
    ensures AtMostOneSequence(fb) ==> AtMostOneSequence(r.0) && r.0[f.user].Keys <= {f.seqNo}
    ensures r.1.None? ==> f.seqNo in r.0[f.user] && f.index in r.0[f.user][f.seqNo].chunks
    ensures r.1.Some? ==>
              && f.seqNo !in r.0[f.user]
              && r.1.value.user == f.user
              && r.1.value.mute == IsMuteFlag(f.flags)
              && r.1.value.deaf == IsDeafFlag(f.flags)
  {
    var ub := UserBufferOf(fb, f.user);
    var base := if f.seqNo in ub then ub else map[f.seqNo := Partial(map[])];
    var chunks := base[f.seqNo].chunks[f.index := f.chunk];
    if |chunks| == f.total as int && HasData(chunks) then
      (fb[f.user := base - {f.seqNo}],
       Some(Completed(f.user, IsMuteFlag(f.flags), IsDeafFlag(f.flags), Assemble(chunks))))
    else
      (fb[f.user := base[f.seqNo := Partial(chunks)]], None)
  }

  /**
   * When a fragment completes its frame: exactly when the chunks stored,
   * this one included, are as many as this fragment announces and do not
   * join to nothing. A frame that does not complete keeps every chunk
   * stored; one that completes is handed over whole and dropped.
   */
  lemma AcceptCompletes(fb: FrameBuffer, f: Fragment)
    ensures Accept(fb, f).1.Some? <==> |Stored(fb, f)| == f.total as int && Assemble(Stored(fb, f)) != []
    ensures Accept(fb, f).1.None? ==>
              f.seqNo in Accept(fb, f).0[f.user] && Accept(fb, f).0[f.user][f.seqNo].chunks == Stored(fb, f)
    ensures Accept(fb, f).1.Some? ==>
              Accept(fb, f).1.value.data == Assemble(Stored(fb, f))
  {
    var ub := UserBufferOf(fb, f.user);
    var base := if f.seqNo in ub then ub else map[f.seqNo := Partial(map[])];
    assert base[f.seqNo].chunks[f.index := f.chunk] == Stored(fb, f);
    AssembleEmptyIff(Stored(fb, f));
  }

  /** `process_fragment` on a whole datagram: one that does not parse changes nothing. */
  function Step(fb: FrameBuffer, d: seq<byte>): (r: (FrameBuffer, Option<Completed>))
    ensures ParsePacket(d).None? ==> r == (fb, None)
    ensures ParsePacket(d).Some? ==> r == Accept(fb, ParsePacket(d).value)
  {
    match ParsePacket(d)
    case None => (fb, None)
    case Some(f) => Accept(fb, f)
  }

  /** Both buffer invariants survive every fragment. */
  lemma AcceptPreservesInvariants(fb: FrameBuffer, f: Fragment)
    requires AtMostOneSequence(fb) && PendingNonEmpty(fb)
    ensures AtMostOneSequence(Accept(fb, f).0) && PendingNonEmpty(Accept(fb, f).0)
  {
    var r: FrameBuffer := Accept(fb, f).0;
    forall u: seq<byte>, s: byte | u in r && s in r[u]
      ensures 0 < |r[u][s].chunks|
    {
      if u != f.user {
        assert r[u] == fb[u];
      } else {
        assert s == f.seqNo;
      }
    }
  }

  /**
   * A fragment of a sequence that is not in flight discards whatever partial
   * frame the user had and starts a new one; a fragment announcing one chunk
   * completes the frame at once, with that chunk as its data, unless the
   * chunk is empty.
   */
  lemma NewSequenceDiscardsPartial(fb: FrameBuffer, f: Fragment)
    requires f.seqNo !in UserBufferOf(fb, f.user)
    ensures f.total != 1 || f.chunk == [] ==>
              Accept(fb, f) == (fb[f.user := map[f.seqNo := Partial(map[f.index := f.chunk])]], None)
    ensures f.total == 1 && f.chunk != [] ==>
              Accept(fb, f) == (fb[f.user := map[]], Some(Completed(f.user, IsMuteFlag(f.flags), IsDeafFlag(f.flags), f.chunk)))
  {
    var m := map[f.index := f.chunk];
    assert |m| == 1;
    assert map[f.seqNo := Partial(map[])][f.seqNo := Partial(m)] == map[f.seqNo := Partial(m)];
    AssembleOne(m, f.index, f.chunk, 0);
    assert HasData(m) <==> f.chunk != [] by {
      assert f.index in m && m[f.index] == f.chunk;
    }
    if f.total == 1 && f.chunk != [] {
      assert map[f.seqNo := Partial(map[])] - {f.seqNo} == map[];
    }
  }

  lemma {:induction false} AssembleOne(m: map<byte, seq<byte>>, k: byte, c: seq<byte>, i: nat)
    requires m == map[k := c] && i <= 256
    ensures AssembleFrom(m, i) == if i <= k as int then c else []
    decreases 256 - i
  {
    if i < 256 {
      AssembleOne(m, k, c, i + 1);
    }
  }

  /** A chunk set whose keys are exactly 0 .. |cs|-1 assembles to the chunks in index order. */
  lemma {:induction false} AssembleInOrder(m: map<byte, seq<byte>>, cs: seq<seq<byte>>, i: nat)
    requires |cs| <= 256 && i <= 256
    requires forall k: byte :: k in m <==> (k as int) < |cs|
    requires forall k: byte :: k in m ==> m[k] == cs[k]
    ensures AssembleFrom(m, i) == if i < |cs| then Concat(cs[i..]) else []
    decreases 256 - i
  {
    if i < 256 {
      AssembleInOrder(m, cs, i + 1);
      if i < |cs| {
        assert (i as byte) in m;
        assert cs[i..][1..] == cs[i + 1..];
        if i + 1 == |cs| {
          assert cs[i + 1..] == [];
        }
      }
    }
  }

  /** `[packets[j] for j in order]`: the datagrams of one send, as the network delivers them. */
  function Permute<T>(xs: seq<T>, order: seq<nat>): (ys: seq<T>)
    requires forall j :: 0 <= j < |order| ==> order[j] < |xs|
    ensures |ys| == |order| && forall j :: 0 <= j < |order| ==> ys[j] == xs[order[j]]
  {
    seq(|order|, j requires 0 <= j < |order| => xs[order[j]])
  }

  predicate Distinct(order: seq<nat>)
  {
    forall i, j :: 0 <= i < j < |order| ==> order[i] != order[j]
  }

  /** order lists every index below n exactly once. */
  predicate IsPermutation(order: seq<nat>, n: nat)
  {
    && |order| == n
    && (forall j :: 0 <= j < |order| ==> order[j] < n)
    && (forall k :: 0 <= k < n ==> k in order)
    && Distinct(order)
  }

  /** The frame buffer and the outputs after a sequence of datagrams. */
  function DeliverAll(fb: FrameBuffer, ds: seq<seq<byte>>): (FrameBuffer, seq<Option<Completed>>)
  {
    if ds == [] then (fb, [])
    else
      var prev := DeliverAll(fb, ds[..|ds| - 1]);
      var next := Step(prev.0, ds[|ds| - 1]);
      (next.0, prev.1 + [next.1])
  }

  /** The chunks stored after the fragments at the given positions. */
  function Collected(cs: seq<seq<byte>>, p: seq<nat>): map<byte, seq<byte>>
    requires |cs| <= 256 && forall j :: 0 <= j < |p| ==> p[j] < |cs|
  {
    if p == [] then map[] else Collected(cs, p[..|p| - 1])[p[|p| - 1] as byte := cs[p[|p| - 1]]]
  }

  lemma {:induction false} CollectedShape(cs: seq<seq<byte>>, p: seq<nat>)
    requires |cs| <= 256 && (forall j :: 0 <= j < |p| ==> p[j] < |cs|) && Distinct(p)
    ensures |Collected(cs, p)| == |p|
    ensures forall k: byte :: k in Collected(cs, p) <==> (k as int) in p
    ensures forall k: byte :: k in Collected(cs, p) ==> Collected(cs, p)[k] == cs[k]
  {
    if p != [] {
      var q := p[..|p| - 1];
      var x := p[|p| - 1];
      assert Distinct(q);
      CollectedShape(cs, q);
      assert x !in q;
      assert (x as byte) !in Collected(cs, q);
      assert p == q + [x];
    }
  }

  /** The fragments of one send of a frame, with their chunks cs. */
  predicate OneSend(fs: seq<Fragment>, cs: seq<seq<byte>>, seqNo: byte, user: seq<byte>, flags: byte)
  {
    && |fs| == |cs| < 256
    && |user| < 256 && IsUtf8(user)
    && forall i :: 0 <= i < |fs| ==> fs[i] == Fragment(seqNo, i, |fs|, user, flags, cs[i])
  }

  lemma DeliverSnoc(fb: FrameBuffer, ds: seq<seq<byte>>, d: seq<byte>)
    ensures DeliverAll(fb, ds + [d]) ==
              (Step(DeliverAll(fb, ds).0, d).0, DeliverAll(fb, ds).1 + [Step(DeliverAll(fb, ds).0, d).1])
  {
    assert (ds + [d])[..|ds|] == ds;
  }

  /**
   * A further fragment of the frame in flight, at an index not yet stored:
   * its chunk joins the set, and the frame completes exactly when the count
   * reaches the total and the chunks do not join to nothing.
   */
  lemma AcceptInFlight(fb: FrameBuffer, f: Fragment, c: map<byte, seq<byte>>)
    requires f.user in fb && fb[f.user] == map[f.seqNo := Partial(c)]
    requires f.index !in c
    ensures |c| + 1 != f.total as int || !HasData(c[f.index := f.chunk]) ==>
              Accept(fb, f) == (fb[f.user := map[f.seqNo := Partial(c[f.index := f.chunk])]], None)
    ensures |c| + 1 == f.total as int && HasData(c[f.index := f.chunk]) ==>
              Accept(fb, f) == (fb[f.user := map[]],
                                Some(Completed(f.user, IsMuteFlag(f.flags), IsDeafFlag(f.flags), Assemble(c[f.index := f.chunk]))))
  {
    assert |c[f.index := f.chunk]| == |c| + 1;
    assert map[f.seqNo := Partial(c)][f.seqNo := Partial(c[f.index := f.chunk])]
        == map[f.seqNo := Partial(c[f.index := f.chunk])];
    assert map[f.seqNo := Partial(c)] - {f.seqNo} == map[];
  }

  /** k datagrams that completed no frame. */
  function Silent(k: nat): (r: seq<Option<Completed>>)
    ensures k > 0 ==> r == Silent(k - 1) + [None]
  {
    seq(k, _ => None)
  }

  /** The frame buffer once the fragments at positions p of one send have arrived, before the last. */
  function InFlight(fb: FrameBuffer, user: seq<byte>, seqNo: byte, cs: seq<seq<byte>>, p: seq<nat>): FrameBuffer
    requires |cs| < 256 && forall j :: 0 <= j < |p| ==> p[j] < |cs|
  {
    if p == [] then fb else fb[user := map[seqNo := Partial(Collected(cs, p))]]
  }

  /** The datagram of a packet reaches `Accept` unchanged. */
  lemma StepPacket(fb: FrameBuffer, f: Fragment)
    requires |f.user| < 256 && IsUtf8(f.user)
    ensures Step(fb, Packet(f)) == Accept(fb, f)
  {
    ParsePacketRoundTrip(f);
  }

  /** The bookkeeping both step lemmas below share. */
  lemma CollectedSnoc(cs: seq<seq<byte>>, q: seq<nat>, x: nat)
    requires |cs| < 256 && (forall j :: 0 <= j < |q| ==> q[j] < |cs|) && x < |cs| && Distinct(q + [x])
    ensures Distinct(q) && (x as byte) !in Collected(cs, q)
    ensures Collected(cs, q + [x]) == Collected(cs, q)[x as byte := cs[x]]
  {
    var p := q + [x];
    assert p[..|p| - 1] == q && p[|p| - 1] == x;
    assert Distinct(q) by {
      forall i, j | 0 <= i < j < |q| ensures q[i] != q[j] {
        assert q[i] == p[i] && q[j] == p[j];
      }
    }
    assert x !in q by {
      forall i | 0 <= i < |q| ensures q[i] != x {
        assert q[i] == p[i];
      }
    }
    CollectedShape(cs, q);
  }

  /** One more fragment of the send, at a position not seen yet and not the last: its chunk joins the set. */
  lemma AcceptNext(fb: FrameBuffer, fs: seq<Fragment>, cs: seq<seq<byte>>,
                   seqNo: byte, user: seq<byte>, flags: byte, q: seq<nat>, x: nat)
    requires OneSend(fs, cs, seqNo, user, flags)
    requires seqNo !in UserBufferOf(fb, user)
    requires (forall j :: 0 <= j < |q| ==> q[j] < |fs|) && x < |fs| && Distinct(q + [x])
    requires |q| + 1 < |fs|
    ensures Accept(InFlight(fb, user, seqNo, cs, q), fs[x]) == (InFlight(fb, user, seqNo, cs, q + [x]), None)
  {
    var p := q + [x];
    var f := fs[x];
    var n := |fs|;
    assert f == Fragment(seqNo, x, n, user, flags, cs[x]);
    CollectedSnoc(cs, q, x);
    CollectedShape(cs, q);
    if q == [] {
      assert Collected(cs, p) == map[x as byte := cs[x]];
      NewSequenceDiscardsPartial(fb, f);
    } else {
      AcceptMiddle(fb, f, Collected(cs, q), user, seqNo);
    }
  }

  lemma AcceptMiddle(fb: FrameBuffer, f: Fragment, c: map<byte, seq<byte>>, user: seq<byte>, seqNo: byte)
    requires f.user == user && f.seqNo == seqNo && f.index !in c && |c| + 1 != f.total as int
    ensures Accept(fb[user := map[seqNo := Partial(c)]], f) ==
              (fb[user := map[seqNo := Partial(c[f.index := f.chunk])]], None)
  {
    var prev := fb[user := map[seqNo := Partial(c)]];
    AcceptInFlight(prev, f, c);
    assert prev[user := map[seqNo := Partial(c[f.index := f.chunk])]]
        == fb[user := map[seqNo := Partial(c[f.index := f.chunk])]];
  }

  /** The last missing fragment of the send completes the frame and leaves the user's buffer empty. */
  lemma AcceptLast(fb: FrameBuffer, fs: seq<Fragment>, cs: seq<seq<byte>>,
                   seqNo: byte, user: seq<byte>, flags: byte, q: seq<nat>, x: nat)
    requires OneSend(fs, cs, seqNo, user, flags)
    requires seqNo !in UserBufferOf(fb, user)
    requires (forall j :: 0 <= j < |q| ==> q[j] < |fs|) && x < |fs| && Distinct(q + [x])
    requires |q| + 1 == |fs| && cs[x] != []
    ensures Accept(InFlight(fb, user, seqNo, cs, q), fs[x]) ==
              (fb[user := map[]], Some(Completed(user, IsMuteFlag(flags), IsDeafFlag(flags), Assemble(Collected(cs, q + [x])))))
  {
    var p := q + [x];
    var f := fs[x];
    var n := |fs|;
    assert f == Fragment(seqNo, x, n, user, flags, cs[x]);
    CollectedSnoc(cs, q, x);
    CollectedShape(cs, q);
    if q == [] {
      assert Collected(cs, p) == map[x as byte := cs[x]];
      AcceptOnly(fb, f, cs[x]);
    } else {
      var c := Collected(cs, q);
      assert HasData(c[f.index := f.chunk]) by {
        assert f.index in c[f.index := f.chunk] && c[f.index := f.chunk][f.index] == cs[x];
      }
      AcceptLastOfMany(fb, f, c, user, seqNo);
    }
  }

  lemma AcceptLastOfMany(fb: FrameBuffer, f: Fragment, c: map<byte, seq<byte>>, user: seq<byte>, seqNo: byte)
    requires f.user == user && f.seqNo == seqNo && f.index !in c && |c| + 1 == f.total as int
    requires HasData(c[f.index := f.chunk])
    ensures Accept(fb[user := map[seqNo := Partial(c)]], f) ==
              (fb[user := map[]], Some(Completed(user, IsMuteFlag(f.flags), IsDeafFlag(f.flags), Assemble(c[f.index := f.chunk]))))
  {
    var prev := fb[user := map[seqNo := Partial(c)]];
    var chunks := c[f.index := f.chunk];
    assert UserBufferOf(prev, f.user) == map[seqNo := Partial(c)];
    assert |chunks| == |c| + 1;
    assert map[seqNo := Partial(c)] - {seqNo} == map[];
    assert prev[user := map[]] == fb[user := map[]];
  }

  /** A frame of one chunk completes with its first fragment. */
  lemma AcceptOnly(fb: FrameBuffer, f: Fragment, c: seq<byte>)
    requires f.seqNo !in UserBufferOf(fb, f.user) && f.total == 1 && f.chunk == c && c != []
    ensures Accept(fb, f) == (fb[f.user := map[]], Some(Completed(f.user, IsMuteFlag(f.flags), IsDeafFlag(f.flags), Assemble(map[f.index := c]))))
  {
    NewSequenceDiscardsPartial(fb, f);
    AssembleOne(map[f.index := c], f.index, c, 0);
  }

  /** Before the last fragment arrives, the user's buffer holds just this frame's chunks so far. */
  lemma {:induction false} DeliverPartial(fb: FrameBuffer, fs: seq<Fragment>, cs: seq<seq<byte>>,
                                          seqNo: byte, user: seq<byte>, flags: byte,
                                          p: seq<nat>, ds: seq<seq<byte>>)
    requires OneSend(fs, cs, seqNo, user, flags)
    requires seqNo !in UserBufferOf(fb, user)
    requires (forall j :: 0 <= j < |p| ==> p[j] < |fs|) && Distinct(p) && |p| < |fs|
    requires |ds| == |p| && forall j :: 0 <= j < |p| ==> ds[j] == Packet(fs[p[j]])
    ensures DeliverAll(fb, ds) == (InFlight(fb, user, seqNo, cs, p), Silent(|p|))
  {
    if p != [] {
      var q, x := p[..|p| - 1], p[|p| - 1];
      var es, d := ds[..|ds| - 1], ds[|ds| - 1];
      DropLast(p, |fs|);
      DeliverPartial(fb, fs, cs, seqNo, user, flags, q, es);
      assert d == Packet(fs[x]);
      StepPacket(InFlight(fb, user, seqNo, cs, q), fs[x]);
      AcceptNext(fb, fs, cs, seqNo, user, flags, q, x);
      DeliverStep(fb, es, d, InFlight(fb, user, seqNo, cs, q), Silent(|q|), InFlight(fb, user, seqNo, cs, p), None);
      SplitLast(ds);
      assert DeliverAll(fb, ds) == (InFlight(fb, user, seqNo, cs, p), Silent(|q|) + [None]);
      assert Silent(|q|) + [None] == Silent(|p|);
    } else {
      assert ds == [] && Silent(0) == [];
    }
  }

  /** One more datagram, given what it does to the buffer the earlier ones left. */
  lemma DeliverStep(fb: FrameBuffer, es: seq<seq<byte>>, d: seq<byte>,
                    prev: FrameBuffer, outs: seq<Option<Completed>>, next: FrameBuffer, out: Option<Completed>)
    requires DeliverAll(fb, es) == (prev, outs) && Step(prev, d) == (next, out)
    ensures DeliverAll(fb, es + [d]) == (next, outs + [out])
  {
    DeliverSnoc(fb, es, d);
  }

  /** Dropping the last of distinct positions below n leaves distinct positions below n. */
  lemma DropLast(p: seq<nat>, n: nat)
    requires p != [] && Distinct(p) && forall j :: 0 <= j < |p| ==> p[j] < n
    ensures Distinct(p[..|p| - 1]) && p == p[..|p| - 1] + [p[|p| - 1]]
  {
    var q := p[..|p| - 1];
    assert forall i :: 0 <= i < |q| ==> q[i] == p[i];
  }

  lemma SplitLast<T>(s: seq<T>)
    requires |s| > 0
    ensures s == s[..|s| - 1] + [s[|s| - 1]]
  {
  }

  /** All fragments of one send, delivered in the given order. */
  lemma DeliverComplete(fb: FrameBuffer, fs: seq<Fragment>, cs: seq<seq<byte>>,
                        seqNo: byte, user: seq<byte>, flags: byte, order: seq<nat>, ds: seq<seq<byte>>)
    requires OneSend(fs, cs, seqNo, user, flags) && |fs| > 0
    requires forall i :: 0 <= i < |cs| ==> cs[i] != []
    requires seqNo !in UserBufferOf(fb, user)
    requires IsPermutation(order, |fs|)
    requires |ds| == |fs| && forall j :: 0 <= j < |fs| ==> ds[j] == Packet(fs[order[j]])
    ensures DeliverAll(fb, ds) ==
              (fb[user := map[]], Silent(|fs| - 1) + [Some(Completed(user, IsMuteFlag(flags), IsDeafFlag(flags), Concat(cs)))])
  {
    var n := |fs|;
    var q, x := order[..n - 1], order[n - 1];
    var es := ds[..n - 1];
    assert order == q + [x];
    assert Distinct(q) by { assert forall i :: 0 <= i < |q| ==> q[i] == order[i]; }
    DeliverPartial(fb, fs, cs, seqNo, user, flags, q, es);
    SplitLast(ds);
    assert ds[n - 1] == Packet(fs[x]);
    DeliverSnoc(fb, es, Packet(fs[x]));
    StepPacket(InFlight(fb, user, seqNo, cs, q), fs[x]);
    AcceptLast(fb, fs, cs, seqNo, user, flags, q, x);
    AssembleAll(cs, order);
  }

  /** Once every chunk of the send is stored, in whatever order, they assemble to the frame. */
  lemma AssembleAll(cs: seq<seq<byte>>, order: seq<nat>)
    requires |cs| < 256 && IsPermutation(order, |cs|)
    ensures Assemble(Collected(cs, order)) == Concat(cs)
  {
    CollectedShape(cs, order);
    assert forall k: byte :: k in Collected(cs, order) <==> (k as int) < |cs|;
    AssembleInOrder(Collected(cs, order), cs, 0);
    assert cs[0..] == cs;
  }

  /**
   * Delivering every fragment of one send, in any order, reproduces the frame:
   * nothing is emitted until the last fragment, which emits the original data
   * with the sender's flags, and the user's buffer ends empty. The one
   * assumption is that the frame's sequence number was not already in flight
   * for that user (the counter wraps after 256 frames).
   */
  lemma ReassembleAnyOrder(fb: FrameBuffer, seqNo: byte, user: seq<byte>, flags: byte,
                           data: seq<byte>, order: seq<nat>)
    requires |data| > 0 && !PackRaises(data, user) && IsUtf8(user)
    requires seqNo !in UserBufferOf(fb, user)
    requires IsPermutation(order, |Chunks(data)|)
    ensures Sendable(FragmentsOf(seqNo, user, flags, data))
    ensures var r := DeliverAll(fb, Permute(PacketsOf(FragmentsOf(seqNo, user, flags, data)), order));
            && r.0 == fb[user := map[]]
            && |r.1| == |order|
            && (forall j :: 0 <= j < |order| - 1 ==> r.1[j] == None)
            && r.1[|order| - 1] == Some(Completed(user, IsMuteFlag(flags), IsDeafFlag(flags), data))
  {
    var fs := FragmentsOf(seqNo, user, flags, data);
    var cs := ChunksOf(fs);
    var ds := Permute(PacketsOf(fs), order);
    assert OneSend(fs, cs, seqNo, user, flags);
    DeliverComplete(fb, fs, cs, seqNo, user, flags, order, ds);
    var r := DeliverAll(fb, ds);
    forall j | 0 <= j < |order| - 1 ensures r.1[j] == None {
      assert r.1[j] == Silent(|fs| - 1)[j];
    }
  }
}
