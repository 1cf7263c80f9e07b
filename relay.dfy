/**
 * The single-port relay server (server.py): a UDP relay that remembers when
 * each address was last heard from, forgets addresses silent for more than
 * five seconds and forwards every datagram to the others; and a TCP chat
 * relay that keeps a list of connected clients and forwards every complete
 * length-prefixed message to all of them but its sender.
 *
 * Time is in milliseconds; the two clock readings of one step are inputs.
 * Which `sendto` calls fail is an input (`failing`).
 */
module RelayServer {
  import opened Wire
  import opened Stream

  /** How long an address stays a target without sending: five seconds. */
  const TTL_MS: int := 5000

  datatype Endpoint = Endpoint(host: string, port: nat)

  /** `{k: v for k, v in seen.items() if not v < cutoff}`: the addresses heard from at or after the cutoff. */
  function Sweep(seen: map<Endpoint, int>, cutoff: int): (r: map<Endpoint, int>)
    ensures r.Keys <= seen.Keys
    ensures forall k :: k in r ==> r[k] == seen[k] && r[k] >= cutoff
  {
    map k | k in seen && !(seen[k] < cutoff) :: seen[k]
  }

  /** The datagrams one relay step hands to `sendto`: one to each target but the sender, minus the failed ones. */
  function Fanout(targets: set<Endpoint>, sender: Endpoint, failing: set<Endpoint>, data: seq<byte>)
    : (r: multiset<(Endpoint, seq<byte>)>)
    ensures forall p :: p in r ==> p.0 in targets && p.0 != sender && p.0 !in failing && p.1 == data
  {
    multiset(set t | t in targets && t != sender && t !in failing :: (t, data))
  }

  /** The sweep removes exactly the entries older than the cutoff and leaves the others' timestamps alone. */
  lemma SweepRemovesExactlyStale(seen: map<Endpoint, int>, cutoff: int, k: Endpoint)
    ensures k in Sweep(seen, cutoff) <==> k in seen && seen[k] >= cutoff
    ensures k in Sweep(seen, cutoff) ==> Sweep(seen, cutoff)[k] == seen[k]
  {
  }

  /**
   * The sender survives the sweep exactly when the sweep's clock reading is
   * at most five seconds past its refresh stamp, new address or not; it then
   * keeps the stamp it was just given.
   */
  lemma SenderSurvives(seen: map<Endpoint, int>, sender: Endpoint, stamp: int, now: int)
    ensures sender in Sweep(seen[sender := stamp], now - TTL_MS) <==> now <= stamp + TTL_MS
    ensures now <= stamp + TTL_MS ==> Sweep(seen[sender := stamp], now - TTL_MS)[sender] == stamp
  {
  }

  /** An address silent for more than five seconds is not a target of the step. */
  lemma SilentPeerIsNotTarget(seen: map<Endpoint, int>, sender: Endpoint, stamp: int, now: int, k: Endpoint,
                              failing: set<Endpoint>, data: seq<byte>)
    requires k in seen && k != sender && now - seen[k] > TTL_MS
    ensures k !in Sweep(seen[sender := stamp], now - TTL_MS)
    ensures (k, data) !in Fanout(Sweep(seen[sender := stamp], now - TTL_MS).Keys, sender, failing, data)
  {
  }

  /** The sender never gets its own datagram back, and a live, working target gets it exactly once. */
  lemma FanoutExactlyOthers(targets: set<Endpoint>, sender: Endpoint, failing: set<Endpoint>, data: seq<byte>, t: Endpoint)
    ensures Fanout(targets, sender, failing, data)[(sender, data)] == 0
    ensures t in targets && t != sender && t !in failing ==> Fanout(targets, sender, failing, data)[(t, data)] == 1
    ensures t !in targets || t in failing ==> Fanout(targets, sender, failing, data)[(t, data)] == 0
  {
  }

  /** One turn of the send loop: one more target visited. */
  lemma FanoutStep(done: set<Endpoint>, t: Endpoint, sender: Endpoint, failing: set<Endpoint>, data: seq<byte>)
    requires t !in done
    ensures Fanout(done + {t}, sender, failing, data) ==
              Fanout(done, sender, failing, data) +
              (if t != sender && t !in failing then multiset{(t, data)} else multiset{})
  {
    var a := set u | u in done && u != sender && u !in failing :: (u, data);
    var b := set u | u in done + {t} && u != sender && u !in failing :: (u, data);
    if t != sender && t !in failing {
      assert b == a + {(t, data)};
      assert (t, data) !in a;
    } else {
      assert b == a;
    }
  }

  class UdpRelay {
    /** `udp_clients`: each address and when it was last heard from. */
    var lastSeen: map<Endpoint, int>
    /** Every datagram `sendto` has accepted, with its destination. */
    var sent: multiset<(Endpoint, seq<byte>)>

    constructor ()
      ensures lastSeen == map[] && sent == multiset{}
    {
      lastSeen := map[];
      sent := multiset{};
    }

    /**
     * One turn of `udp_listener` for a datagram `data` from `addr`: stamp
     * the sender with the clock reading `stamp`, drop every address whose
     * stamp is older than five seconds before the second reading `now`,
     * and send the datagram to every remaining address but the sender; a
     * failed send is skipped.
     */
    method OnDatagram(data: seq<byte>, addr: Endpoint, stamp: int, now: int, failing: set<Endpoint>)
      returns (targets: set<Endpoint>)
      modifies this
      ensures lastSeen == Sweep(old(lastSeen)[addr := stamp], now - TTL_MS)
      ensures targets == lastSeen.Keys
      ensures sent == old(sent) + Fanout(targets, addr, failing, data)
    {
      lastSeen := lastSeen[addr := stamp];
      ghost var refreshed := lastSeen;
      var cutoff := now - TTL_MS;
      var inactive := set k | k in lastSeen && lastSeen[k] < cutoff;
      ghost var stale := inactive;
      while inactive != {}
        modifies this`lastSeen
        invariant inactive <= stale
        invariant lastSeen.Keys == refreshed.Keys - (stale - inactive)
        invariant forall k :: k in lastSeen ==> lastSeen[k] == refreshed[k]
        decreases inactive
      {
        var k :| k in inactive;
        lastSeen := lastSeen - {k};
        inactive := inactive - {k};
      }
      assert lastSeen == Sweep(refreshed, cutoff);
      targets := lastSeen.Keys;
      SendEach(targets, addr, failing, data);
    }

    /** The broadcast loop of `udp_listener`: the datagram to every target but the sender; a failed send is skipped. */
    method SendEach(targets: set<Endpoint>, addr: Endpoint, failing: set<Endpoint>, data: seq<byte>)
      modifies this`sent
      ensures sent == old(sent) + Fanout(targets, addr, failing, data)
    {
      var todo := targets;
      while todo != {}
        invariant todo <= targets
        invariant sent == old(sent) + Fanout(targets - todo, addr, failing, data)
        decreases todo
      {
        var t :| t in todo;
        FanoutStep(targets - todo, t, addr, failing, data);
        assert (targets - todo) + {t} == targets - (todo - {t});
        if t != addr && t !in failing {
          sent := sent + multiset{(t, data)};
        }
        todo := todo - {t};
      }
      assert targets - todo == targets;
    }
  }

  /** `list.remove(x)`: drop the first occurrence of x; nothing when it is absent (the code checks first). */
  function RemoveFirst<T(==)>(s: seq<T>, x: T): (r: seq<T>)
    ensures x !in s ==> r == s
    ensures x in s ==> |r| == |s| - 1 && multiset(r) == multiset(s) - multiset{x}
  {
    if s == [] then []
    else if s[0] == x then
      assert s == [s[0]] + s[1..];
      s[1..]
    else
      assert s == [s[0]] + s[1..];
      [s[0]] + RemoveFirst(s[1..], x)
  }

  /** No socket is listed twice. */
  predicate NoRepeats<T(==)>(s: seq<T>)
  {
    forall i, j :: 0 <= i < j < |s| ==> s[i] != s[j]
  }

  lemma ConsNoRepeats<T>(a: T, r: seq<T>)
    requires a !in r && NoRepeats(r)
    ensures NoRepeats([a] + r)
  {
    var s := [a] + r;
    forall i, j | 0 <= i < j < |s| ensures s[i] != s[j]
    {
      if i > 0 {
        assert s[i] == r[i - 1] && s[j] == r[j - 1];
      } else {
        assert s[j] == r[j - 1];
      }
    }
  }

  /** Removing a client from a list without repeats takes it out, keeps every other one, and adds no repeat. */
  lemma {:induction false} RemoveFirstKeepsOthers<T>(s: seq<T>, x: T)
    requires NoRepeats(s)
    ensures x !in RemoveFirst(s, x)
    ensures forall y :: y in s && y != x ==> y in RemoveFirst(s, x)
    ensures NoRepeats(RemoveFirst(s, x))
  {
    if s == [] {
    } else if s[0] == x {
      assert s == [x] + s[1..];
      assert x !in s[1..];
    } else {
      assert s == [s[0]] + s[1..];
      assert NoRepeats(s[1..]);
      RemoveFirstKeepsOthers(s[1..], x);
      var r := RemoveFirst(s[1..], x);
      assert s[0] !in r by {
        assert s[0] !in multiset(s[1..]);
        assert s[0] !in multiset(r);
      }
      ConsNoRepeats(s[0], r);
    }
  }

  /** What one turn of `handle_tcp` did: forward a message (the header exactly as read, then the payload), or end the session. */
  datatype RelayStep = Relayed(msg: seq<byte>) | Ended

  class ChatRelay {
    /** `tcp_clients`, in connection order. */
    var clients: seq<Socket>

    predicate Valid()
      reads this
    {
      NoRepeats(clients)
    }

    constructor ()
      ensures Valid() && clients == []
    {
      clients := [];
    }

    /** `accept()` followed by `tcp_clients.append(client)`. */
    method Connect(incoming: seq<byte>, peerGone: bool) returns (client: Socket)
      requires Valid()
      modifies this
      ensures Valid()
      ensures fresh(client) && client.incoming == incoming && client.peerGone == peerGone && !client.closed
      ensures clients == old(clients) + [client]
    {
      client := new Socket(incoming, peerGone);
      clients := clients + [client];
    }

    /**
     * The forwarding loop: `msg` goes to every listed client other than
     * the sender; a client whose `sendall` raises is skipped and the loop
     * goes on.
     */
    method Forward(sender: Socket, msg: seq<byte>)
      requires Valid()
      modifies set c | c in clients
      ensures forall c :: c in clients ==>
                c.outgoing == if c != sender && !c.closed && !c.peerGone then old(c.outgoing) + msg else old(c.outgoing)
      ensures forall c :: c in clients ==>
                c.incoming == old(c.incoming) && c.closed == old(c.closed) && c.peerGone == old(c.peerGone)
    {
      var i := 0;
      while i < |clients|
        invariant 0 <= i <= |clients|
        invariant forall j :: 0 <= j < i ==>
                    clients[j].outgoing ==
                      if clients[j] != sender && !clients[j].closed && !clients[j].peerGone
                      then old(clients[j].outgoing) + msg else old(clients[j].outgoing)
        invariant forall j :: i <= j < |clients| ==> clients[j].outgoing == old(clients[j].outgoing)
        invariant forall c :: c in clients ==>
                    c.incoming == old(c.incoming) && c.closed == old(c.closed) && c.peerGone == old(c.peerGone)
      {
        var c := clients[i];
        if c != sender {
          var _ := c.SendAll(msg);
        }
        i := i + 1;
      }
    }

    /** The `finally` block: delist the client if it is listed, then close it. */
    method Disconnect(client: Socket)
      requires Valid()
      modifies this, client`closed
      ensures Valid()
      ensures clients == RemoveFirst(old(clients), client) && client !in clients
      ensures client.closed
    {
      if client in clients {
        RemoveFirstKeepsOthers(clients, client);
        clients := RemoveFirst(clients, client);
      }
      client.Close();
    }

    /**
     * One turn of the `handle_tcp` loop: read a header of up to four bytes
     * and the payload it announces; a complete message is forwarded, as the
     * header followed by the payload, to every other client. An empty
     * header or a payload cut short ends the session and forwards nothing.
     */
    method RelayOnce(client: Socket) returns (step: RelayStep)
      requires Valid()
      modifies client`incoming, set c | c in clients
      ensures Valid() && clients == old(clients)
      ensures step.Relayed? ==> |old(client.incoming)| > |client.incoming|
      ensures step.Relayed? ==> exists header, payload ::
                |header| <= 4 && |payload| == FromBigEndian(header) && step.msg == header + payload &&
                old(client.incoming) == header + payload + client.incoming &&
                header != [] &&
                forall c :: c in clients && c != client ==>
                  c.outgoing == if !c.closed && !c.peerGone then old(c.outgoing) + step.msg else old(c.outgoing)
      ensures step.Ended? ==> forall c :: c in clients ==> c.outgoing == old(c.outgoing)
      ensures step.Ended? ==> client.incoming == []
      ensures client.outgoing == old(client.outgoing)
      ensures forall c :: c in clients ==> c.closed == old(c.closed) && c.peerGone == old(c.peerGone)
      ensures forall c :: c in clients && c != client ==> c.incoming == old(c.incoming)
    {
      var header, payload := ReadMessage(client);
      if header == [] || |payload| != FromBigEndian(header) {
        return Ended;
      }
      Forward(client, header + payload);
      step := Relayed(header + payload);
    }

    /**
     * `handle_tcp` for a listed client: relay its messages until it closes
     * or sends a payload short of its header, then delist and close it.
     */
    method HandleTcp(client: Socket)
      requires Valid() && client in clients
      modifies this, client, set c | c in clients
      ensures Valid()
      ensures clients == RemoveFirst(old(clients), client) && client !in clients
      ensures client.closed && client.incoming == []
    {
      ghost var listed := clients;
      while true
        invariant Valid() && clients == listed
        decreases |client.incoming|
      {
        var step := RelayOnce(client);
        if step.Ended? {
          break;
        }
      }
      Disconnect(client);
    }
  }
}
