# Conference relay and clients: a Dafny model

This project models the networking core of a small video-conference system.

- **Desktop client** (`client.py`, `BackendWorker`):
  - cuts each encoded camera frame into chunks of at most 60000 bytes;
  - sends each chunk as a UDP fragment carrying the frame counter, the chunk's index, the chunk count, the user name and a mute/deaf flag byte;
  - reassembles frames from incoming fragments, with one frame in flight per sender;
  - routes control datagrams (audio, camera-off);
  - sends and receives length-prefixed chat messages over TCP.
- **Console client** (`clientmulti.py`, `AVClient`):
  - uses three TCP streams (audio, video, chat) with the same 4-byte big-endian length framing;
  - expects every relayed payload to start with its sender's 36-character id, and drops its own;
  - queues received audio in a jitter buffer that keeps the newest five blocks.
- **Multi-port server** (`servermulti.py`):
  - keeps a registry of clients keyed by IP address, each with a fresh id and one connection per stream kind;
  - relays each message, wrapped with the sender's id, to every other client that has that kind of connection;
  - drops connections whose write fails, and tears a connection down when its session ends.
- **Single-port server** (`server.py`):
  - runs a UDP relay that remembers when each address was last heard from, forgets addresses silent for more than five seconds, and forwards each datagram to the others;
  - runs a TCP chat relay over a list of clients.

Modules:

| module | file | what it models |
|---|---|---|
| `Wire` | wire.dfy | bytes; 4-byte big-endian length framing; UTF-8 well-formedness (section 4 of RFC 3629) |
| `Stream` | stream.dfy | a TCP socket (`recv`, `sendall`, `close`); the shared receive logic "header of up to 4 bytes, then loop until the payload arrived or the peer closed" |
| `VideoWire` | video_wire.dfy | frame chunking; the fragment format and its parse; the flag byte; the dispatch of a datagram by its first byte; control-message routing |
| `Reassembly` | reassembly.dfy | the per-sender frame buffer of `process_fragment`, as a value; proof that any delivery order of one frame's fragments gives back the frame |
| `Backend` | backend.dfy | `BackendWorker` as a class, plus the mute/deaf/chat window actions |
| `AvClient` | av_client.dfy | `AVClient` and its jitter buffer as classes; the sender-id split |
| `MultiServer` | registry.dfy | the registry of `servermulti.py`, broadcast, registration, teardown |
| `RelayServer` | relay.dfy | `udp_clients` and `tcp_clients` of `server.py` |

Modelling conventions:

- **Inputs.** Some things are supplied to the model rather than computed by it:
  - `pickle.dumps` / `pickle.loads` are serialised bytes or a decoding function (`decode`) given as a parameter;
  - the image decoder is a predicate (`imageOk`);
  - the clock is a pair of integer millisecond readings;
  - which sends fail is a set (`failing`), or the socket's own `peerGone` / `closed` state.
- **Atomic steps.** Each region guarded by a lock is one atomic step.
- **Loops.** Each receive loop is modelled as one pass (`...Once`) that returns whether the loop goes round again. A whole session is modelled where it terminates (`HandleConnection`, `HandleTcp`).
- **Connections.** In `MultiServer`, a connection is a handle number.
  - `written` records what `sendall` delivered to each handle.
  - `closed` records the handles that were closed.
  - Reading a client's stream uses a `Stream.Socket`.
- **Facts of the code the model keeps:**
  - Every send happens on the thread that received the message; nothing is queued per peer.
  - `process_fragment` does not check that `index < total`.
  - A frame completes when the number of distinct indices stored equals the `total` of the fragment that has just arrived. The `total` stored with the pending frame is never read.
  - A frame whose assembled bytes are empty makes the decoder raise before `del`, so it stays pending and nothing is shown.
  - A fragment whose index is repeated or out of range is just stored under that index.
  - The UDP sweep does not spare the sender: its freshly stamped entry is removed too when more than 5 seconds pass between the two clock readings of one step.

## Model

| member | source | states |
|---|---|---|
| `Wire.FromBigEndian` | clientmulti.py:98 | the value of a big-endian header of k bytes is below 256^k |
| `Wire.BigEndian4` | clientmulti.py:69 | `to_bytes(4, 'big')` gives 4 bytes that read back as the same number |
| `Wire.Frame` | clientmulti.py:69 | framing succeeds exactly when the length is below 2^32; the frame is 4 + n bytes, with the data after a header that reads back as its length |
| `Wire.ParseFrame` | servermulti.py:47-58 | a successful parse splits the stream into a frame of the parsed payload followed by the rest |
| `Wire.FrameRoundTrip` | clientmulti.py:96-104 | parsing the frame of any data followed by any bytes gives back exactly that data and those bytes |
| `Wire.AsciiIsUtf8` | clientmulti.py:106 | an ASCII id (such as the textual UUID of clientmulti.py:33) always decodes as UTF-8 |
| `Stream.Socket.Recv` | clientmulti.py:102 | `recv(n)` returns at most n bytes, in stream order, and nothing only once the peer has closed |
| `Stream.Socket.SendAll` | clientmulti.py:70 | `sendall` delivers all the data, or nothing when the peer is gone or this end is closed |
| `Stream.Socket.Close` | clientmulti.py:381-383 | the socket is closed |
| `Stream.RecvUpTo` | clientmulti.py:100-104 | under any `recv` chunking, the payload loop returns the first n bytes of the stream, or all of it when the peer closed sooner, and consumes exactly that |
| `Stream.ReadMessage` | clientmulti.py:96-104 | header and payload are consecutive stream bytes; the header is empty only at end of stream; a payload shorter than announced means the stream is exhausted; a full header gives the parse of `Wire.ParseFrame` |
| `VideoWire.Chunks` | client.py:306 | non-empty chunks of at most 60000 bytes that concatenate back to the frame |
| `VideoWire.ChunkCount` | client.py:306-307 | a frame of n bytes yields ceil(n/60000) chunks, the `total` written into every header |
| `VideoWire.ChunkAt` | client.py:306 | chunk k is the slice from k·60000 to min((k+1)·60000, n) |
| `VideoWire.FragmentsOf` | client.py:305-312 | one fragment per chunk, with the counter, index i, the chunk count, the user name and the flags; their chunks concatenate to the frame |
| `VideoWire.Packet` | client.py:311-312 | a packet is 6 header bytes, the name and the chunk, and starts with the marker 0xFF |
| `VideoWire.PackRaisesExactly` | client.py:306-312 | packing raises exactly for a frame of more than 255 * 60000 bytes, or a non-empty frame under a name of more than 255 bytes |
| `VideoWire.PacketsOf` | client.py:311-312 | one packet per fragment: marker 0xFF, counter, index, total, name length, name, flags, chunk |
| `VideoWire.ParsePacket` | client.py:332-336 | a successful parse gives a UTF-8 name shorter than 256 bytes, and a fragment whose packet matches the datagram after its first byte |
| `VideoWire.ParsePacketRoundTrip` | client.py:330-336 | parsing the packet of any fragment with a UTF-8 name recovers every field |
| `VideoWire.EncodeFlags` | client.py:309 | the flag byte is below 4, and the receiver's bit tests of client.py:336 give back mute and deaf |
| `VideoWire.Dispatch` | client.py:323-327 | a datagram is dropped iff it is empty, and goes to fragment processing iff its first byte is 0xFF; anything else goes to `pickle.loads` |
| `VideoWire.PacketsGoToFragments` | client.py:324 | every fragment packet is routed to fragment processing |
| `VideoWire.PickledGoToControl` | client.py:324-327 | a pickled control datagram (first byte 0x80) is routed to the control path |
| `VideoWire.RouteControl` | client.py:360-366 | audio is played iff it is an audio block, the client is not deafened, and the block has an even number of bytes; an `offcam` notice shows the sender as camera-off with its flags |
| `Reassembly.Accept` | client.py:338-358 | other senders' buffers are untouched; a sender holds at most the current counter; a frame left pending keeps the new chunk under its index; a completed frame is deleted and returned with the sender and its flags |
| `Reassembly.AssembleEmptyIff` | client.py:349-353 | the joined chunks are non-empty exactly when some stored chunk is non-empty |
| `Reassembly.AcceptCompletes` | client.py:345-358 | a frame completes exactly when the distinct indices stored, with the new chunk, number the arriving fragment's `total` and join to non-empty bytes; the frame returned is that join; otherwise the stored chunks are the old ones plus the new chunk under its index |
| `Reassembly.Step` | client.py:330-358 | a datagram whose header does not parse changes nothing; otherwise it is `Accept` of the parsed fragment |
| `Reassembly.AcceptPreservesInvariants` | client.py:341-357 | at most one frame in flight per sender, and at least one chunk stored in every pending frame, are preserved |
| `Reassembly.NewSequenceDiscardsPartial` | client.py:341-343 | a fragment with a new counter value discards the sender's unfinished frame; it completes at once iff it announces one chunk and carries bytes, otherwise it becomes the only pending frame |
| `Reassembly.AssembleInOrder` | client.py:349-350 | joining the chunks sorted by index gives the concatenation of chunks 0..n-1 |
| `Reassembly.ReassembleAnyOrder` | client.py:304-358 | the fragments of one sent frame, delivered in any order, produce nothing until the last, which yields the frame with the sender and flags and leaves the sender's buffer empty |
| `Backend.Kept` | client.py:313 | a swallowed `sendto` failure drops only that datagram: none lost without failures, none kept when all fail |
| `Backend.BackendWorker.constructor` | client.py:226-247 | running, unmuted, undeafened, counter 0, empty frame buffer |
| `Backend.BackendWorker.SendVideoFragments` | client.py:304-314 | the counter always advances mod 256; packing raises exactly for a frame of over 255 chunks or a name over 255 bytes, before sending; otherwise the packets of `FragmentsOf` minus failed sends go out in order |
| `Backend.BackendWorker.SendPackets` | client.py:310-314 | the per-chunk send loop: every packet whose send does not fail is appended to the UDP log, in chunk order, and nothing goes out once the socket is closed |
| `Backend.BackendWorker.ProcessFragment` | client.py:330-358 | the frame buffer becomes `Step` of the old one, a completed frame is signalled, and the buffer invariants are kept |
| `Backend.BackendWorker.StoreFragment` | client.py:338-357 | the in-place update of the frame buffer equals `Accept` |
| `Backend.BackendWorker.ProcessControl` | client.py:360-366 | plays or shows what `RouteControl` says, and nothing else |
| `Backend.BackendWorker.LoopUdpOnce` | client.py:320-328 | fragments go to reassembly; a control datagram that unpickles plays or shows exactly what `RouteControl` says and changes no frame state; an empty or unpicklable datagram changes nothing |
| `Backend.BackendWorker.AudioCallback` | client.py:368-371 | an audio datagram is sent only while running, unmuted and undeafened |
| `Backend.BackendWorker.ActionMute` | client.py:532-538 | mute toggles unless deafened, in which case nothing changes; deaf implies mute is kept |
| `Backend.BackendWorker.ActionDeaf` | client.py:540-551 | deaf toggles and mute follows it |
| `Backend.BackendWorker.ActionSendChat` | client.py:521-530 | the line is shown iff the text is non-empty, the frame fits and the send succeeds; exactly that frame is appended to the stream |
| `Backend.BackendWorker.LoopTcpOnce` | client.py:264-281 | the corrected receive step of the finding on client.py:275: end of stream, an incomplete payload or an unpicklable one stops the worker with a disconnect signal; otherwise the chat line is signalled |
| `Backend.BackendWorker.Stop` | client.py:373-380 | not running, and both sockets closed |
| `Backend.OneFailureDropsOne` | client.py:310-314 | a single failed `sendto` loses exactly that datagram; the others go out in order |
| `Backend.InnerLoopAsWritten` | client.py:275 | the payload loop as written returns the accumulated bytes and the unread rest, which together are exactly the bytes held before plus the stream |
| `Backend.InnerLoopNeverExits` | client.py:275 | when the stream ends before the announced length, the loop condition holds after any number of iterations |
| `Backend.TruncatedChatSpins` | client.py:264-275 | a header announcing 10 bytes followed by 3 bytes and a close never leaves the payload loop |
| `AvClient.Window` | clientmulti.py:34 | a `deque(maxlen=n)` holds the last min(len, n) elements appended |
| `AvClient.AppendToFull` | clientmulti.py:111 | appending to a full deque evicts the oldest block and keeps the rest in order |
| `AvClient.JitterBuffer.constructor` | clientmulti.py:34 | an empty buffer with the given bound |
| `AvClient.JitterBuffer.Append` | clientmulti.py:111 | the buffer becomes the newest five of the old blocks plus the new one |
| `AvClient.JitterBuffer.PopLeft` | clientmulti.py:87-88 | the oldest block is returned and removed |
| `AvClient.SplitSender` | clientmulti.py:106-107 | the id is the first min(36, n) bytes and the body the rest, and together they are the payload |
| `AvClient.SplitSenderRoundTrip` | clientmulti.py:106-107 | a 36-byte id followed by a body splits back into that id and body |
| `AvClient.OwnEchoDropped` | clientmulti.py:109 | the client's own echoed message is never kept |
| `AvClient.OtherSenderKept` | clientmulti.py:106-111 | another client's message with an ASCII id is kept with its body intact |
| `AvClient.PickledRelayRejected` | clientmulti.py:106 | a payload starting with the pickle opcode 0x80 has an id that does not decode, so it is never kept |
| `AvClient.AVClient.constructor` | clientmulti.py:29-63 | running iff the hardware opened; an empty jitter buffer of bound 5 |
| `AvClient.AVClient.Stop` | clientmulti.py:365-389 | a second stop does nothing; the first clears the flag and closes the three sockets |
| `AvClient.AVClient.SendData` | clientmulti.py:65-75 | skipped unless running; an oversize length or a closed socket is fatal, stops the client and closes all three sockets; a gone peer only warns; otherwise exactly the frame is written; short of a fatal outcome the running flag and the sockets' closed state are unchanged |
| `AvClient.AVClient.ReceiveAudioOnce` | clientmulti.py:93-118 | the loop ends at end of stream, an undecodable id or an odd-length block from another sender; a block from another sender joins the jitter buffer as `Window` says |
| `AvClient.AVClient.ReceiveVideoOnce` | clientmulti.py:139-174 | the loop ends only at end of stream; a decodable frame from another sender replaces that user's frame; nothing else changes |
| `AvClient.AVClient.ReceiveChatOnce` | clientmulti.py:285-313 | the loop ends at end of stream, an undecodable id or an unpicklable body from another sender; another sender's line is logged |
| `AvClient.AVClient.PlaybackOnce` | clientmulti.py:85-91 | the oldest block is played and removed, or nothing happens when the buffer is empty |
| `MultiServer.RegisterSpec` | servermulti.py:30-41 | the entry is keyed by the IP part of the address; a new IP gets a fresh id and a record with this one connection; a known address keeps its id and address, with this kind's connection replaced; other entries are untouched |
| `MultiServer.TeardownSpec` | servermulti.py:69-79 | the entry loses its connection of this kind and is removed when none is left; other entries are untouched |
| `MultiServer.NoSelfDelivery` | servermulti.py:19 | no connection of the sender receives its own broadcast |
| `MultiServer.TargetsExactly` | servermulti.py:17-27 | a connection is written to or closed iff it is a target (another client's connection of this kind); written ones did not fail; closed ones did |
| `MultiServer.FailurePrunesOnlyTarget` | servermulti.py:22-27 | a failed write removes only that client's connection of this kind, and the client only when no connection is left; other clients are untouched |
| `MultiServer.BroadcastKeepsInvariants` | servermulti.py:14-27 | after broadcast no entry is empty, ids stay distinct, each connection belongs to one client and kind, and ids are unchanged |
| `MultiServer.RegisterKeepsInvariants` | servermulti.py:33-41 | registering a new connection keeps the same invariants |
| `MultiServer.SameHostSameId` | servermulti.py:30-41 | two connections from addresses with the same IP, whatever their ports, share one entry, one id and the first address |
| `MultiServer.TeardownRemovesReplacement` | servermulti.py:30-79 | when a newer connection of the same kind from the same address replaced an older one, the older session's teardown removes the newer connection |
| `MultiServer.TeardownKeepsInvariants` | servermulti.py:69-79 | teardown keeps the invariants, and a repeated teardown changes nothing |
| `MultiServer.ThreeClientScenario` | servermulti.py:14-27 | with three video clients, a broadcast by the first reaches each of the other two once and the first not at all |
| `MultiServer.SendToAll` | servermulti.py:17-27 | the snapshot loop, in any visiting order, yields the pruned registry, the writes and the closed connections of the whole pass |
| `MultiServer.Registry.constructor` | servermulti.py:11 | an empty registry |
| `MultiServer.Registry.Register` | servermulti.py:29-41 | a fresh connection is filed under `client_addr[0]` as `RegisterSpec` says, and the invariants are kept |
| `MultiServer.Registry.Broadcast` | servermulti.py:14-27 | registry, writes and closed connections are those of the whole pass, and the invariants are kept |
| `MultiServer.Registry.Teardown` | servermulti.py:69-79 | the registry becomes `TeardownSpec` of the old one; the registered connection of this kind, if any, is closed |
| `MultiServer.Registry.ServeOnce` | servermulti.py:46-63 | one pass of the receive loop: header and payload are consecutive stream bytes; a message is relayed iff the header is non-empty, the payload is complete and the wrapped message `wrap(id, payload)` fits a frame; then registry, writes and closed connections are those of broadcasting exactly that frame; otherwise nothing changes |
| `MultiServer.Registry.HandleConnection` | servermulti.py:29-80 | a session run without other sessions interleaved ends with its own connection closed, no connection of its kind left under its IP, and the invariants kept |
| `RelayServer.Sweep` | server.py:42-44 | the swept table keeps only known addresses, each with its old timestamp and none older than the cutoff |
| `RelayServer.Fanout` | server.py:49-52 | every datagram sent carries the data to a target other than the sender whose send does not fail |
| `RelayServer.SweepRemovesExactlyStale` | server.py:42-44 | the sweep removes exactly the entries older than the cutoff and keeps the others' timestamps |
| `RelayServer.SenderSurvives` | server.py:39-44 | the sender, new or known, survives the sweep iff the second clock reading is at most 5 s after its fresh stamp, and then keeps that stamp |
| `RelayServer.SilentPeerIsNotTarget` | server.py:42-46 | an address silent for more than 5 s is neither kept nor sent to |
| `RelayServer.FanoutExactlyOthers` | server.py:49-52 | the sender never gets its datagram; every other working target gets it exactly once; a failed or absent one never |
| `RelayServer.UdpRelay.constructor` | server.py:10 | no address known, nothing sent |
| `RelayServer.UdpRelay.SendEach` | server.py:49-52 | the send loop appends exactly the fan-out of the datagram to the targets |
| `RelayServer.UdpRelay.OnDatagram` | server.py:35-52 | the table becomes the sweep of the refreshed table; the targets are its keys; the datagrams sent are the fan-out to them |
| `RelayServer.RemoveFirst` | server.py:85 | removes one occurrence of a listed element, and nothing when it is absent |
| `RelayServer.RemoveFirstKeepsOthers` | server.py:84-85 | in a list without repeats, removal takes the client out, keeps every other one and adds no repeat |
| `RelayServer.ChatRelay.constructor` | server.py:11 | an empty client list |
| `RelayServer.ChatRelay.Connect` | server.py:60-61 | a new connection is appended at the end of the list |
| `RelayServer.ChatRelay.Forward` | server.py:76-79 | every listed client but the sender whose socket works receives the message once; failures are skipped; nothing else changes |
| `RelayServer.ChatRelay.Disconnect` | server.py:84-86 | the client is delisted if listed, and closed |
| `RelayServer.ChatRelay.RelayOnce` | server.py:63-80 | a complete message, the header exactly as read followed by the announced number of payload bytes, is forwarded to all the others, never echoed to the sender; an empty header or a short payload forwards nothing and leaves the stream exhausted; no socket's closed or peer-gone state changes, and no other client's stream is read |
| `RelayServer.ChatRelay.HandleTcp` | server.py:58-86 | the session ends with the client delisted, closed and its stream consumed |

## Left out

- The Qt window, its dialogs and drawing, the data-carrying signals other than those logged as events, and `update_grid`: presentation only.
- Camera capture, JPEG encoding, `loop_camera`, `send_video` and `display_videos` of the console client: hardware and floating point. The encoded frame is an input.
- The hello and camera-off control datagrams that `run` and `loop_camera` send: they are `send_udp_control` calls on pickled values and add nothing beyond `AudioCallback`.
- The `total` and `ts` entries that `process_fragment` stores with a pending frame: neither is ever read (completion uses the arriving fragment's `total`).
- `cv2.imdecode` returning `None` for non-empty bytes it cannot decode: the decoder is outside the model. The model only captures that empty bytes raise before `del`. A completed frame with non-empty bytes is signalled as `FrameReady`, whether or not the decoder then accepts it.
- `pickle`, `cv2.imdecode` and `np.frombuffer`: these are parameters of the model, or the one fact the code relies on (an int16 buffer needs an even byte count).
- The accept loops (`start_listener`, `tcp_listener`), `server_running`, the shutdown of `server.py`, `chat_input_loop` and `start`: thread and console plumbing around the modelled steps.
- Socket timeouts: the socket model has no send or read timeouts. In `server.py` a timeout only makes an accept or receive loop go round again. In the console client (5-second timeouts, clientmulti.py:46-48) a timeout is not that harmless. In `send_data` (clientmulti.py:71) it is only a warning, after `sendall` may already have written part of the frame, which the all-or-nothing `SendAll` cannot express. In the receive loops (clientmulti.py:113, :170, :308) a timeout in the middle of a payload `continue`s with the bytes already read discarded, so the next pass reads a header out of the payload and the stream is misframed.
- Concurrency: each locked region is one atomic step, and interleavings of the threads are not modelled.
- Dict iteration order: broadcasts and the UDP fan-out are specified whatever the order.
- `time.time()` floats: the model reads the clock as integer milliseconds.
- Operating-system buffer sizes (`SO_RCVBUF`) and the 65536-byte `recvfrom` limit: not part of the logic.
- `Reassembly.ReassembleAnyOrder`: proved for a counter value with no partial frame already pending for that sender. After the counter wraps, a stale partial with the same value would be merged with the new frame's chunks.
- `MultiServer.Registry.HandleConnection`: a session is modelled as one atomic run, so `conn in closed` is promised only when no other session interleaves. With two overlapping sessions of the same kind from one IP, the older session's `finally` closes the newer socket and never its own. `TeardownRemovesReplacement` states the registry side of that. Each relayed message is stated by `ServeOnce`, not the sequence of all messages of the session.
- `RelayServer.ChatRelay.HandleTcp`: states how the session ends, not the sequence of messages relayed during it.
- `AvClient.AVClient.ReceiveAudioOnce`: the source turns a timeout or a reset into another pass; the socket model has no read timeouts or read-side resets, so those passes do not arise.
- `AvClient.AVClient.ReceiveVideoOnce`: same as `ReceiveAudioOnce`.
- `AvClient.AVClient.ReceiveChatOnce`: same as `ReceiveAudioOnce`.

## Findings

| source | as written | input that shows it | evidently intended | confidence | as-written member | corrected member |
|---|---|---|---|---|---|---|
| client.py:275 | `loop_tcp` accumulates the payload with no check for an empty `recv`, so a peer that closes mid-message leaves the thread spinning forever: `running` stays true and no exception is raised | a header announcing 10 bytes, then 3 bytes, then the server closes | treat the short payload as a disconnect: stop the worker and signal it, as an empty header does | not executed | `Backend.TruncatedChatSpins` | `Backend.BackendWorker.LoopTcpOnce` |
| servermulti.py:60-61 | each relayed message is `pickle.dumps` of a dict holding the id and the data, while clientmulti.py:106-107 reads the first 36 bytes of the payload as the sender's id | any relayed message: its first byte is the pickle opcode 0x80, which cannot start UTF-8, so the audio and chat receivers end their loops and the video receiver drops every frame | the sender's 36-character id followed by the raw data | not executed | `AvClient.PickledRelayRejected` | `AvClient.OtherSenderKept` |
