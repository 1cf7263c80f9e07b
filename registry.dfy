/**
 * The multi-port relay server (servermulti.py): one TCP listener per stream
 * kind, a registry of clients keyed by IP address, each with one
 * connection per stream kind, and a broadcast that forwards every message
 * to every other client that has that kind of connection, dropping
 * connections whose write fails.
 *
 * Connections are handles; what `sendall` delivered to each handle is
 * recorded in `written`, and which handles were closed in `closed`. Which
 * writes fail is an input (`failing`).
 */
module MultiServer {
  import opened Wire
  import opened Stream

  datatype StreamKind = Audio | Video | Chat

  /** A connected socket, as the registry refers to it. */
  type Conn = nat

  /** `client_addr[0]`, the key of the registry. */
  type Host = string

  datatype Address = Address(host: Host, port: nat)

  /** `{'id': ..., 'connections': {kind: socket}, 'addr': ...}`; the id is a fresh number here. */
  datatype ClientRecord = ClientRecord(id: nat, connections: map<StreamKind, Conn>, addr: Address)

  /** `clients` */
  type Clients = map<Host, ClientRecord>

  /** The registry invariant: no entry without a connection. */
  predicate NoEmptyEntry(cs: Clients)
  {
    forall h :: h in cs ==> cs[h].connections != map[]
  }

  predicate IdsDistinct(cs: Clients)
  {
    forall h1, h2 :: h1 in cs && h2 in cs && h1 != h2 ==> cs[h1].id != cs[h2].id
  }

  /**
   * A connection belongs to one client and one stream kind: `owner` names,
   * for every connection accepted so far, the address and kind it was
   * registered under.
   */
  predicate Owned(cs: Clients, owner: map<Conn, (Host, StreamKind)>)
  {
    forall h, k :: h in cs && k in cs[h].connections ==>
      cs[h].connections[k] in owner && owner[cs[h].connections[k]] == (h, k)
  }

  predicate Wellformed(cs: Clients, owner: map<Conn, (Host, StreamKind)>)
  {
    NoEmptyEntry(cs) && IdsDistinct(cs) && Owned(cs, owner)
  }

  /**
   * The registration under the lock of `handle_connection`, keyed by the
   * IP address of the peer, `client_addr[0]`.
   */
  function RegisterSpec(cs: Clients, addr: Address, kind: StreamKind, conn: Conn, freshId: nat): (r: Clients)
    ensures addr.host in r && kind in r[addr.host].connections && r[addr.host].connections[kind] == conn
    ensures addr.host in cs ==> r[addr.host].id == cs[addr.host].id && r[addr.host].addr == cs[addr.host].addr
    ensures addr.host !in cs ==> r[addr.host] == ClientRecord(freshId, map[kind := conn], addr)
    ensures addr.host in cs ==> r[addr.host].connections == cs[addr.host].connections[kind := conn]
    ensures forall h :: h in cs && h != addr.host ==> h in r && r[h] == cs[h]
    ensures r.Keys == cs.Keys + {addr.host}
  {
    var host := addr.host;
    var rec := if host in cs then cs[host] else ClientRecord(freshId, map[], addr);
    cs[host := rec.(connections := rec.connections[kind := conn])]
  }

  /** `broadcast` sends to this record. */
  predicate IsTarget(rec: ClientRecord, senderId: nat, kind: StreamKind)
  {
    rec.id != senderId && kind in rec.connections
  }

  predicate SendFails(rec: ClientRecord, senderId: nat, kind: StreamKind, failing: set<Conn>)
  {
    IsTarget(rec, senderId, kind) && rec.connections[kind] in failing
  }

  /** The record after its turn in the broadcast: a failed connection is dropped. */
  function Pruned(rec: ClientRecord, senderId: nat, kind: StreamKind, failing: set<Conn>): ClientRecord
  {
    if SendFails(rec, senderId, kind, failing) then rec.(connections := rec.connections - {kind}) else rec
  }

  /**
   * The registry once the records of the hosts in `done` have had their
   * turn: each has lost its failed connection, and is gone if that was its
   * last one.
   */
  function AfterBroadcast(cs: Clients, senderId: nat, kind: StreamKind, failing: set<Conn>, done: set<Host>): Clients
  {
    map h | h in cs && (h in done ==> Pruned(cs[h], senderId, kind, failing).connections != map[]) ::
      if h in done then Pruned(cs[h], senderId, kind, failing) else cs[h]
  }

  /** The connections that received the message. */
  function Delivered(cs: Clients, senderId: nat, kind: StreamKind, failing: set<Conn>, done: set<Host>): set<Conn>
  {
    set h | h in cs && h in done && IsTarget(cs[h], senderId, kind) && cs[h].connections[kind] !in failing ::
      cs[h].connections[kind]
  }

  /** The connections whose write failed, which `broadcast` closes. */
  function Failed(cs: Clients, senderId: nat, kind: StreamKind, failing: set<Conn>, done: set<Host>): set<Conn>
  {
    set h | h in cs && h in done && SendFails(cs[h], senderId, kind, failing) :: cs[h].connections[kind]
  }

  /** What each connection has been sent, after `data` went to the connections in d. */
  function Append(written: map<Conn, seq<byte>>, d: set<Conn>, data: seq<byte>): (r: map<Conn, seq<byte>>)
    ensures r.Keys == written.Keys
  {
    map c | c in written :: if c in d then written[c] + data else written[c]
  }

  /** The `finally` teardown of `handle_connection`, as written. */
  function TeardownSpec(cs: Clients, host: Host, kind: StreamKind): (r: Clients)
    ensures host !in cs ==> r == cs
    ensures host in r ==> kind !in r[host].connections && r[host].connections == cs[host].connections - {kind}
    ensures forall h :: h in cs && h != host ==> h in r && r[h] == cs[h]
    ensures r.Keys <= cs.Keys
  {
    if host !in cs then cs
    else
      var rec := cs[host];
      var rec' := rec.(connections := rec.connections - {kind});
      if rec'.connections == map[] then cs - {host} else cs[host := rec']
  }

  /** The sender never receives its own broadcast, on any of its connections. */
  lemma NoSelfDelivery(cs: Clients, owner: map<Conn, (Host, StreamKind)>, senderId: nat, kind: StreamKind,
                       failing: set<Conn>, h: Host, k: StreamKind)
    requires Owned(cs, owner)
    requires h in cs && cs[h].id == senderId && k in cs[h].connections
    ensures cs[h].connections[k] !in Delivered(cs, senderId, kind, failing, cs.Keys)
  {
    var c := cs[h].connections[k];
    forall h2 | h2 in cs && IsTarget(cs[h2], senderId, kind)
      ensures cs[h2].connections[kind] != c
    {
      assert owner[cs[h2].connections[kind]] == (h2, kind);
    }
  }

  /**
   * Exactly the targets are tried: every target connection either received
   * the message or failed and is closed; no other connection is touched.
   */
  lemma TargetsExactly(cs: Clients, senderId: nat, kind: StreamKind, failing: set<Conn>, c: Conn)
    ensures c in Delivered(cs, senderId, kind, failing, cs.Keys) + Failed(cs, senderId, kind, failing, cs.Keys) <==>
              exists h :: h in cs && IsTarget(cs[h], senderId, kind) && cs[h].connections[kind] == c
    ensures c in Delivered(cs, senderId, kind, failing, cs.Keys) ==> c !in failing
    ensures c in Failed(cs, senderId, kind, failing, cs.Keys) ==> c in failing
  {
  }

  /**
   * A failed write costs only that client its connection of this kind; the
   * client is removed only when that was its last connection, and every
   * other client is untouched.
   */
  lemma FailurePrunesOnlyTarget(cs: Clients, senderId: nat, kind: StreamKind, failing: set<Conn>, h: Host)
    requires NoEmptyEntry(cs) && h in cs
    ensures var r := AfterBroadcast(cs, senderId, kind, failing, cs.Keys);
            && (!SendFails(cs[h], senderId, kind, failing) ==> h in r && r[h] == cs[h])
            && (SendFails(cs[h], senderId, kind, failing) ==>
                  (h in r <==> cs[h].connections - {kind} != map[]) &&
                  (h in r ==> r[h].connections == cs[h].connections - {kind} && r[h].id == cs[h].id))
  {
  }

  /** The broadcast keeps the registry invariants. */
  lemma BroadcastKeepsInvariants(cs: Clients, owner: map<Conn, (Host, StreamKind)>, senderId: nat, kind: StreamKind,
                                 failing: set<Conn>, done: set<Host>)
    requires Wellformed(cs, owner)
    ensures var r := AfterBroadcast(cs, senderId, kind, failing, done);
            Wellformed(r, owner) && forall h :: h in r ==> h in cs && r[h].id == cs[h].id
  {
    var r := AfterBroadcast(cs, senderId, kind, failing, done);
    forall h, k | h in r && k in r[h].connections
      ensures r[h].connections[k] in owner && owner[r[h].connections[k]] == (h, k)
    {
      assert r[h].connections[k] == cs[h].connections[k];
    }
  }

  /** Registering a new connection keeps the invariants. */
  lemma RegisterKeepsInvariants(cs: Clients, owner: map<Conn, (Host, StreamKind)>, addr: Address,
                                kind: StreamKind, conn: Conn, freshId: nat)
    requires Wellformed(cs, owner) && conn !in owner
    requires forall h :: h in cs ==> cs[h].id < freshId
    ensures Wellformed(RegisterSpec(cs, addr, kind, conn, freshId), owner[conn := (addr.host, kind)])
  {
    var host := addr.host;
    var r := RegisterSpec(cs, addr, kind, conn, freshId);
    var owner' := owner[conn := (host, kind)];
    forall h, k | h in r && k in r[h].connections
      ensures r[h].connections[k] in owner' && owner'[r[h].connections[k]] == (h, k)
    {
      if h != host || k != kind {
        assert r[h].connections[k] == cs[h].connections[k];
      }
    }
  }

  /**
   * Two connections from one IP address, from any ports, share one registry
   * entry and one id.
   */
  lemma SameHostSameId(cs: Clients, a1: Address, a2: Address, k1: StreamKind, k2: StreamKind,
                       c1: Conn, c2: Conn, i1: nat, i2: nat)
    requires a1.host == a2.host
    ensures var r1 := RegisterSpec(cs, a1, k1, c1, i1);
            var r2 := RegisterSpec(r1, a2, k2, c2, i2);
            r2.Keys == cs.Keys + {a1.host} && r2[a1.host].id == r1[a1.host].id && r2[a1.host].addr == r1[a1.host].addr
  {
  }

  /**
   * Teardown goes by IP address and stream kind, not by socket: when a
   * second connection of the same kind from the same address has replaced
   * the first in the registry, the first one's teardown removes the second.
   */
  lemma TeardownRemovesReplacement(cs: Clients, a1: Address, a2: Address, kind: StreamKind,
                                   c1: Conn, c2: Conn, i1: nat, i2: nat)
    requires a1.host == a2.host
    ensures var r := RegisterSpec(RegisterSpec(cs, a1, kind, c1, i1), a2, kind, c2, i2);
            var t := TeardownSpec(r, a1.host, kind);
            r[a1.host].connections[kind] == c2 && (a1.host in t ==> kind !in t[a1.host].connections)
  {
  }

  /** Teardown keeps the invariants, and a second teardown of the same key and kind does nothing. */
  lemma TeardownKeepsInvariants(cs: Clients, owner: map<Conn, (Host, StreamKind)>, host: Host, kind: StreamKind)
    requires Wellformed(cs, owner)
    ensures Wellformed(TeardownSpec(cs, host, kind), owner)
    ensures TeardownSpec(TeardownSpec(cs, host, kind), host, kind) == TeardownSpec(cs, host, kind)
  {
    var t := TeardownSpec(cs, host, kind);
    forall h, k | h in t && k in t[h].connections
      ensures t[h].connections[k] in owner && owner[t[h].connections[k]] == (h, k)
    {
      assert t[h].connections[k] == cs[h].connections[k];
    }
    if host in t {
      assert t[host].connections - {kind} == t[host].connections;
      assert t[host := t[host]] == t;
    }
  }

  /**
   * Three clients with video connections 1, 2 and 3, none failing: when the
   * first sends, the other two receive exactly one copy and the first none.
   */
  lemma ThreeClientScenario(data: seq<byte>)
    ensures var cs := map["A" := ClientRecord(0, map[Video := 1], Address("A", 5000)),
                          "B" := ClientRecord(1, map[Video := 2], Address("B", 5000)),
                          "C" := ClientRecord(2, map[Video := 3], Address("C", 5000))];
            var w := Append(map[1 := [], 2 := [], 3 := []], Delivered(cs, 0, Video, {}, cs.Keys), data);
            w[1] == [] && w[2] == data && w[3] == data
  {
    var cs := map["A" := ClientRecord(0, map[Video := 1], Address("A", 5000)),
                  "B" := ClientRecord(1, map[Video := 2], Address("B", 5000)),
                  "C" := ClientRecord(2, map[Video := 3], Address("C", 5000))];
    var owner: map<Conn, (Host, StreamKind)> := map[1 := ("A", Video), 2 := ("B", Video), 3 := ("C", Video)];
    var d := Delivered(cs, 0, Video, {}, cs.Keys);
    assert "B" in cs && "C" in cs;
    assert 2 in d && 3 in d;
    assert 1 !in d by { NoSelfDelivery(cs, owner, 0, Video, {}, "A", Video); }
  }

  /** One turn of the broadcast loop, for the host h not visited yet: the registry. */
  lemma StepClients(cs: Clients, senderId: nat, kind: StreamKind, failing: set<Conn>, done: set<Host>, h: Host)
    requires NoEmptyEntry(cs) && h in cs && h !in done
    ensures var rec := cs[h];
            var before := AfterBroadcast(cs, senderId, kind, failing, done);
            var after := AfterBroadcast(cs, senderId, kind, failing, done + {h});
            && (!SendFails(rec, senderId, kind, failing) ==> after == before)
            && (SendFails(rec, senderId, kind, failing) && rec.connections - {kind} == map[] ==> after == before - {h})
            && (SendFails(rec, senderId, kind, failing) && rec.connections - {kind} != map[] ==>
                  after == before[h := rec.(connections := rec.connections - {kind})])
  {
    var rec := cs[h];
    var before := AfterBroadcast(cs, senderId, kind, failing, done);
    var after := AfterBroadcast(cs, senderId, kind, failing, done + {h});
    if !SendFails(rec, senderId, kind, failing) {
      assert after == before;
    } else if rec.connections - {kind} == map[] {
      assert after == before - {h};
    } else {
      assert after == before[h := rec.(connections := rec.connections - {kind})];
    }
  }

  /** One turn of the broadcast loop: the connections written to. */
  lemma StepDelivered(cs: Clients, owner: map<Conn, (Host, StreamKind)>, senderId: nat, kind: StreamKind,
                      failing: set<Conn>, done: set<Host>, h: Host)
    requires Owned(cs, owner) && h in cs && h !in done
    ensures var rec := cs[h];
            var d := Delivered(cs, senderId, kind, failing, done);
            var d' := Delivered(cs, senderId, kind, failing, done + {h});
            && (IsTarget(rec, senderId, kind) && rec.connections[kind] !in failing ==>
                  d' == d + {rec.connections[kind]} && rec.connections[kind] !in d)
            && (!(IsTarget(rec, senderId, kind) && rec.connections[kind] !in failing) ==> d' == d)
  {
    var rec := cs[h];
    if IsTarget(rec, senderId, kind) {
      var c := rec.connections[kind];
      forall h2 | h2 in cs && h2 in done && IsTarget(cs[h2], senderId, kind)
        ensures cs[h2].connections[kind] != c
      {
        assert owner[cs[h2].connections[kind]] == (h2, kind);
      }
    }
  }

  /** One turn of the broadcast loop: one more connection written to. */
  lemma StepAppend(w: map<Conn, seq<byte>>, d: set<Conn>, c: Conn, data: seq<byte>)
    requires c in w && c !in d
    ensures Append(w, d, data)[c := w[c] + data] == Append(w, d + {c}, data)
  {
  }

  /** One turn of the broadcast loop: the connections closed. */
  lemma StepFailed(cs: Clients, senderId: nat, kind: StreamKind, failing: set<Conn>, done: set<Host>, h: Host)
    requires h in cs && h !in done
    ensures var rec := cs[h];
            var f := Failed(cs, senderId, kind, failing, done);
            var f' := Failed(cs, senderId, kind, failing, done + {h});
            && (SendFails(rec, senderId, kind, failing) ==> f' == f + {rec.connections[kind]})
            && (!SendFails(rec, senderId, kind, failing) ==> f' == f)
  {
  }

  /**
   * The loop of `broadcast`, over the snapshot cs: visit every client once,
   * in some order, and return the registry, what each connection has been
   * sent and the closed connections after the whole pass.
   */
  method SendToAll(cs: Clients, ghost owner: map<Conn, (Host, StreamKind)>, written: map<Conn, seq<byte>>,
                   closed: set<Conn>, senderId: nat, data: seq<byte>, kind: StreamKind, failing: set<Conn>)
    returns (cs': Clients, written': map<Conn, seq<byte>>, closed': set<Conn>)
    requires Wellformed(cs, owner) && owner.Keys == written.Keys
    ensures cs' == AfterBroadcast(cs, senderId, kind, failing, cs.Keys)
    ensures written' == Append(written, Delivered(cs, senderId, kind, failing, cs.Keys), data)
    ensures closed' == closed + Failed(cs, senderId, kind, failing, cs.Keys)
  {
    var cur := cs;
    written', closed' := written, closed;
    var todo := cs.Keys;
    ghost var done: set<Host> := {};
    while todo != {}
      invariant todo + done == cs.Keys && todo !! done
      invariant cur == AfterBroadcast(cs, senderId, kind, failing, done)
      invariant written' == Append(written, Delivered(cs, senderId, kind, failing, done), data)
      invariant closed' == closed + Failed(cs, senderId, kind, failing, done)
      decreases todo
    {
      var h :| h in todo;
      cur, written', closed' := VisitOne(cs, owner, written, closed, senderId, data, kind, failing, done, h,
                                         cur, written', closed');
      todo := todo - {h};
      done := done + {h};
    }
    cs' := cur;
  }

  /** One turn of the loop of `broadcast`: the client at h, not visited yet, has its turn. */
  method VisitOne(cs: Clients, ghost owner: map<Conn, (Host, StreamKind)>, written: map<Conn, seq<byte>>,
                  closed: set<Conn>, senderId: nat, data: seq<byte>, kind: StreamKind, failing: set<Conn>,
                  ghost done: set<Host>, h: Host,
                  cur: Clients, w: map<Conn, seq<byte>>, cl: set<Conn>)
    returns (cur': Clients, w': map<Conn, seq<byte>>, cl': set<Conn>)
    requires Wellformed(cs, owner) && owner.Keys == written.Keys
    requires h in cs && h !in done
    requires cur == AfterBroadcast(cs, senderId, kind, failing, done)
    requires w == Append(written, Delivered(cs, senderId, kind, failing, done), data)
    requires cl == closed + Failed(cs, senderId, kind, failing, done)
    ensures cur' == AfterBroadcast(cs, senderId, kind, failing, done + {h})
    ensures w' == Append(written, Delivered(cs, senderId, kind, failing, done + {h}), data)
    ensures cl' == closed + Failed(cs, senderId, kind, failing, done + {h})
  {
    var rec := cs[h];
    StepClients(cs, senderId, kind, failing, done, h);
    StepDelivered(cs, owner, senderId, kind, failing, done, h);
    StepFailed(cs, senderId, kind, failing, done, h);
    cur', w', cl' := cur, w, cl;
    if IsTarget(rec, senderId, kind) {
      var c := rec.connections[kind];
      if c in failing {
        cl' := cl + {c};
        var left := rec.connections - {kind};
        cur' := if left == map[] then cur - {h} else cur[h := rec.(connections := left)];
      } else {
        StepAppend(written, Delivered(cs, senderId, kind, failing, done), c, data);
        w' := w[c := w[c] + data];
      }
    }
  }

  class Registry {
    var clients: Clients
    var written: map<Conn, seq<byte>>
    var closed: set<Conn>
    /** Ids handed out so far (`uuid.uuid4()` never repeats). */
    var nextId: nat
    /** Connections accepted so far. */
    var nextConn: nat
    /** The address and kind each accepted connection was registered under. */
    ghost var owner: map<Conn, (Host, StreamKind)>

    ghost predicate Valid()
      reads this
    {
      && Wellformed(clients, owner)
      && owner.Keys == written.Keys
      && (forall c :: c in owner ==> c < nextConn)
      && (forall h :: h in clients ==> clients[h].id < nextId)
    }

    constructor ()
      ensures Valid() && clients == map[] && written == map[] && closed == {}
    {
      clients := map[];
      written := map[];
      closed := {};
      nextId := 0;
      nextConn := 0;
      owner := map[];
    }

    /**
     * `accept()` and the registration of `handle_connection`: a new
     * connection; an unknown address gets a fresh id and an empty record,
     * a known one keeps its id; then the connection is filed under its kind.
     */
    method Register(addr: Address, kind: StreamKind) returns (conn: Conn, id: nat)
      requires Valid()
      modifies this`clients, this`written, this`nextId, this`nextConn, this`owner
      ensures Valid()
      ensures conn == old(nextConn) && conn !in old(written) && written == old(written)[conn := []]
      ensures clients == RegisterSpec(old(clients), addr, kind, conn, old(nextId))
      ensures id == clients[addr.host].id
      ensures addr.host !in old(clients) ==> id == old(nextId)
    {
      conn := nextConn;
      RegisterKeepsInvariants(clients, owner, addr, kind, conn, nextId);
      var next := RegisterSpec(clients, addr, kind, conn, nextId);
      id := next[addr.host].id;
      clients := next;
      written := written[conn := []];
      owner := owner[conn := (addr.host, kind)];
      nextConn := nextConn + 1;
      nextId := nextId + 1;
    }

    /**
     * `broadcast`: over a snapshot of the registry, send `data` to every
     * client other than the sender that has a connection of this kind; a
     * failed write closes and drops that connection, and the client once it
     * has none left. The loop visits the snapshot in some order; the result
     * does not depend on it.
     */
    method Broadcast(senderId: nat, data: seq<byte>, kind: StreamKind, failing: set<Conn>)
      requires Valid()
      modifies this`clients, this`written, this`closed
      ensures Valid()
      ensures clients == AfterBroadcast(old(clients), senderId, kind, failing, old(clients).Keys)
      ensures written == Append(old(written), Delivered(old(clients), senderId, kind, failing, old(clients).Keys), data)
      ensures closed == old(closed) + Failed(old(clients), senderId, kind, failing, old(clients).Keys)
    {
      BroadcastKeepsInvariants(clients, owner, senderId, kind, failing, clients.Keys);
      clients, written, closed := SendToAll(clients, owner, written, closed, senderId, data, kind, failing);
    }

    /** The `finally` block of `handle_connection`. */
    method Teardown(host: Host, kind: StreamKind)
      requires Valid()
      modifies this`clients, this`closed
      ensures Valid()
      ensures clients == TeardownSpec(old(clients), host, kind)
      ensures closed == old(closed) +
                (if host in old(clients) && kind in old(clients)[host].connections
                 then {old(clients)[host].connections[kind]} else {})
    {
      TeardownKeepsInvariants(clients, owner, host, kind);
      if host in clients {
        var rec := clients[host];
        if kind in rec.connections {
          closed := closed + {rec.connections[kind]};
          rec := rec.(connections := rec.connections - {kind});
        } else {
          assert rec.connections - {kind} == rec.connections;
        }
        clients := if rec.connections == map[] then clients - {host} else clients[host := rec];
      }
    }

    /**
     * One pass of the relay loop of `handle_connection` for the client
     * registered under `host` with id `id`: read a length-prefixed message;
     * unless the header is empty, the payload is cut short or the wrapped
     * message (`wrap`, the `pickle.dumps` of the source) is too long for the
     * 4-byte header, broadcast `Frame(wrap(id, payload))` to the other
     * clients' connections of this kind. The sender's own entry is never
     * pruned.
     */
    method ServeOnce(sock: Socket, host: Host, id: nat, kind: StreamKind,
                     wrap: (nat, seq<byte>) -> seq<byte>, failing: set<Conn>)
      returns (header: seq<byte>, payload: seq<byte>, relayed: bool)
      requires Valid()
      requires host in clients && clients[host].id == id && kind in clients[host].connections
      modifies this`clients, this`written, this`closed, sock`incoming
      ensures Valid()
      ensures old(sock.incoming) == header + payload + sock.incoming
      ensures relayed <==> header != [] && |payload| == FromBigEndian(header) && Frame(wrap(id, payload)).Some?
      ensures relayed ==>
                && clients == AfterBroadcast(old(clients), id, kind, failing, old(clients).Keys)
                && written == Append(old(written), Delivered(old(clients), id, kind, failing, old(clients).Keys),
                                     Frame(wrap(id, payload)).value)
                && closed == old(closed) + Failed(old(clients), id, kind, failing, old(clients).Keys)
      ensures !relayed ==> clients == old(clients) && written == old(written) && closed == old(closed)
      ensures host in clients && clients[host] == old(clients)[host]
    {
      header, payload := ReadMessage(sock);
      relayed := false;
      if header == [] || |payload| < FromBigEndian(header) {
        return;
      }
      var unit := Frame(wrap(id, payload));
      if unit.None? {
        return;
      }
      FailurePrunesOnlyTarget(clients, id, kind, failing, host);
      Broadcast(id, unit.value, kind, failing);
      relayed := true;
    }

    /**
     * `handle_connection` run as one session: register under the peer's IP
     * address, relay every message the client sends (`ServeOnce`) until one
     * pass relays nothing, then tear down.
     */
    method HandleConnection(sock: Socket, addr: Address, kind: StreamKind,
                            wrap: (nat, seq<byte>) -> seq<byte>, failing: set<Conn>)
      returns (conn: Conn, id: nat)
      requires Valid()
      modifies this, sock`incoming
      ensures Valid()
      ensures conn == old(nextConn) && conn in closed
      ensures addr.host in clients ==> kind !in clients[addr.host].connections
    {
      conn, id := Register(addr, kind);
      while true
        invariant Valid()
        invariant addr.host in clients && kind in clients[addr.host].connections
        invariant clients[addr.host].connections[kind] == conn && clients[addr.host].id == id
        decreases |sock.incoming|
      {
        var header, payload, relayed := ServeOnce(sock, addr.host, id, kind, wrap, failing);
        if !relayed {
          break;
        }
      }
      Teardown(addr.host, kind);
    }
  }
}
