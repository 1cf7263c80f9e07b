/**
 * A TCP socket as the relay's code sees it, and the receive logic every
 * stream reader in the repository shares: read a header of up to four bytes,
 * then loop on `recv` until the announced number of payload bytes has
 * arrived or the peer has closed.
 */
module Stream {
  import opened Wire

  /** What `sendall` does: deliver everything, or raise. */
  datatype SendResult =
    | Sent
    | PeerGone   // BrokenPipeError / ConnectionResetError: the peer is gone
    | NotOpen    // OSError (bad file descriptor): close() was called on this end

  class Socket {
    /** The bytes the peer has sent that this end has not read yet; the peer closes after them. */
    var incoming: seq<byte>
    /** Every byte `sendall` has handed to the connection. */
    var outgoing: seq<byte>
    /** The peer has reset the connection, so writes raise. */
    var peerGone: bool
    /** `close()` has been called on this end. */
    var closed: bool

    constructor (incoming: seq<byte>, peerGone: bool)
      ensures this.incoming == incoming && this.peerGone == peerGone
      ensures outgoing == [] && !closed
    {
      this.incoming := incoming;
      this.peerGone := peerGone;
      outgoing := [];
      closed := false;
    }

    /**
     * `recv(want)`: the operating system hands over at most `want` bytes, in
     * order, and an empty result only once the peer has closed. How many it
     * hands over is its choice; callers can rely on nothing more than this
     * contract.
     */
    method Recv(want: nat) returns (chunk: seq<byte>)
      modifies this`incoming
      ensures |chunk| <= want
      ensures old(incoming) == chunk + incoming
      ensures want > 0 && old(incoming) != [] ==> chunk != []
    {
      var k := if want < |incoming| then want else |incoming|;
      chunk := incoming[..k];
      incoming := incoming[k..];
    }

    /** `sendall(data)`: all of `data`, or nothing and an exception. */
    method SendAll(data: seq<byte>) returns (r: SendResult)
      modifies this`outgoing
      ensures r == (if closed then NotOpen else if peerGone then PeerGone else Sent)
      ensures outgoing == if r == Sent then old(outgoing) + data else old(outgoing)
    {
      if closed {
        r := NotOpen;
      } else if peerGone {
        r := PeerGone;
      } else {
        r := Sent;
        outgoing := outgoing + data;
      }
    }

    method Close()
      modifies this`closed
      ensures closed
    {
      closed := true;
    }
  }

  /**
   * The payload loop `while len(buf) < n: chunk = recv(n - len(buf)); if not
   * chunk: break; buf += chunk`. Whatever sizes `recv` picks, the result is the
   * first n bytes of the stream, or all of it when the peer closed sooner.
   */
  method RecvUpTo(sock: Socket, n: nat) returns (data: seq<byte>)
    modifies sock`incoming
    ensures data == old(sock.incoming)[..Min(n, |old(sock.incoming)|)]
    ensures old(sock.incoming) == data + sock.incoming
  {
    data := [];
    while |data| < n
      invariant |data| <= n
      invariant old(sock.incoming) == data + sock.incoming
      decreases n - |data|
    {
      var chunk := sock.Recv(n - |data|);
      if chunk == [] {
        break;
      }
      data := data + chunk;
    }
    assert |data| < n ==> sock.incoming == [];
    assert old(sock.incoming)[..|data|] == data;
  }

  /**
   * One length-prefixed read: `header = recv(4)`, then, unless the header is
   * empty (the peer closed), `msg_len = int.from_bytes(header, 'big')` and the
   * payload loop. `recv(4)` may return fewer than four bytes; the code then
   * takes the length from what it got, and so does this model.
   */
  method ReadMessage(sock: Socket) returns (header: seq<byte>, payload: seq<byte>)
    modifies sock`incoming
    ensures old(sock.incoming) == header + payload + sock.incoming
    ensures header == [] <==> old(sock.incoming) == []
    ensures |header| <= 4
    ensures |payload| <= FromBigEndian(header)
    ensures |payload| < FromBigEndian(header) ==> sock.incoming == []
    ensures |header| == 4 && ParseFrame(old(sock.incoming)).Some? ==>
              (payload, sock.incoming) == ParseFrame(old(sock.incoming)).value
  {
    header := sock.Recv(4);
    payload := [];
    if header != [] {
      payload := RecvUpTo(sock, FromBigEndian(header));
    }
    ghost var s := old(sock.incoming);
    assert s == header + payload + sock.incoming;
    if |header| == 4 && ParseFrame(s).Some? {
      assert s[..4] == header;
      assert |payload| == FromBigEndian(header);
      assert payload == s[4..4 + |payload|];
      assert sock.incoming == s[4 + |payload|..];
    }
  }
}
