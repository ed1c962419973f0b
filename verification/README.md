# Quizcord connection manager in Dafny

Quizcord's server is a WebSocket chat relay. Every text a client sends is
broadcast to every other connected client. The server also announces joins
and leaves with the number of active connections. This project models the
relay's core: the `ConnectionManager` registry and broadcast in `disgarai.py`,
and the per-connection session in `websocket_endpoint`.

- `optional.dfy`: `Option`, used for the broadcast's `sender` argument, which
  defaults to "no sender".
- `registry.dfy` (module `Registry`): the list of active connections.
  - A connection is a `ConnId`. Transport handles compare by identity, so a
    number is enough.
  - `Connect` appends with no duplicate check.
  - `Disconnect` removes the first occurrence if present and is a no-op
    otherwise.
  - `RemoveFirst` models the list's own `remove`.
  - `Without(s, d)` is the reference filter the other contracts are stated
    against: the members of `s` that are not in `d`, in order.
- `dispatcher.dfy` (module `Dispatcher`): the broadcast.
  - The transport is replaced by an oracle: `failed` is the set of connections
    whose send raises during this broadcast.
  - Every send attempt is recorded in a trace, with its outcome.
  - `Deliver` is a fold over the copy of the list taken at entry. It skips the
    sender, attempts everyone else in copy order, and deregisters a connection
    whose send failed from the live list.
  - `BroadcastLoop` is the source's loop over the copy, written as a method. It
    is proved to compute the same list and trace as the fold.
- `session.dfy` (module `Session`): the session.
  - `Handle` maps one event to the registry change and the sends it causes. The
    events are `Join`, `Receive(text)`, `GracefulClose` (the disconnect
    exception) and `UnexpectedError` (any other exception).
  - `Server`, `Next` and `Run` run the sessions of many connections, one event
    at a time, in any interleaving the transport allows (`Admissible`).

Behaviour of `disgarai.py` that the model keeps, all proved:
- Inbound text is relayed as received, with no parsing or wrapping
  (disgarai.py:137-138).
- The sender never gets its own text back (disgarai.py:26-27, 138).
- The join notice counts the registry right after the append
  (disgarai.py:128-131). Members dropped by failed sends during that same
  broadcast are still counted.
- The leave notice goes to every remaining member and counts the registry after
  the removal (disgarai.py:141-146).
- The error path deregisters the connection and sends nothing
  (disgarai.py:147-149).
- A connection dropped by a failed send stays in its receive loop. So the
  registry can be smaller than the set of open sessions. The later close of
  that session is then a no-op removal followed by a leave notice.

## Model

| member | source | states |
|---|---|---|
| Registry.Connect | disgarai.py:16-18 | registering puts the connection last, keeps every earlier member at its position, grows the list by one, and does not check for duplicates (an already registered connection then occurs twice) |
| Registry.ConnectNoDup | disgarai.py:16-18 | the list stays duplicate-free after a registration exactly when it was duplicate-free and the connection was not yet registered |
| Registry.RemoveFirst | disgarai.py:22 | the list's remove deletes exactly the first occurrence of the connection (everything before and after it kept in order); it is only called when the connection is present |
| Registry.Disconnect | disgarai.py:20-22 | deregistering an absent connection leaves the list unchanged without error; for a present one it removes exactly its first occurrence, shortens the list by one and keeps the order of the others |
| Registry.DisconnectMultiset | disgarai.py:20-22 | deregistering removes one occurrence of the connection, if any, and changes no other connection's count |
| Registry.RemoveFirstIsWithout | disgarai.py:22 | on a duplicate-free list, removing the first occurrence removes the connection entirely |
| Registry.DisconnectIsWithout | disgarai.py:20-22 | on a duplicate-free list, deregistering filters the connection out: it is absent afterwards and the list stays duplicate-free |
| Registry.ConnectDisconnect | disgarai.py:16-22 | registering a new connection and then deregistering it restores the list |
| Registry.DisconnectIdempotent | disgarai.py:20-22 | on a duplicate-free list a second deregistration of the same connection changes nothing |
| Dispatcher.DeliverTrace | disgarai.py:25-31 | the walk over the copy attempts every member of the copy except the sender, once each and in copy order, whatever the live list and earlier failures do |
| Dispatcher.DeliverSends | disgarai.py:28-31 | every attempt of the walk carries the message unchanged and fails exactly when the oracle fails that connection |
| Dispatcher.BroadcastTargets | disgarai.py:24-31 | a broadcast addresses exactly the registered connections other than the sender, in registry order; it never addresses the sender; every attempt carries the message unchanged and fails exactly on the failing connections |
| Dispatcher.BroadcastToAll | disgarai.py:24-27 | with no sender every registered connection is addressed |
| Dispatcher.BroadcastOnce | disgarai.py:25-29 | on a duplicate-free registry each member other than the sender gets exactly one attempt and no one else gets any |
| Dispatcher.DeliverDelivered | disgarai.py:28-31 | the connections the walk actually delivers to are the members of the copy that are neither the sender nor failing, in order |
| Dispatcher.BroadcastDelivered | disgarai.py:24-31 | a broadcast delivers to exactly the registered connections that are neither the sender nor failing, in registry order |
| Dispatcher.DeliverKeeps | disgarai.py:28-31 | the walk never adds a connection, and a non-failing connection or the sender keeps every occurrence it had in the live list |
| Dispatcher.BroadcastKeeps | disgarai.py:24-31 | even with duplicates, a broadcast adds no one and removes no occurrence of the sender or of a connection whose send succeeded |
| Dispatcher.DeliverRegistry | disgarai.py:25-31 | on a duplicate-free live list the walk ends with that list minus exactly the failing non-sender members of the copy |
| Dispatcher.BroadcastRegistry | disgarai.py:24-31 | on a duplicate-free registry a broadcast removes exactly the failing connections other than the sender, keeps everyone else in their order, and leaves the registry duplicate-free |
| Dispatcher.DeliverSnoc | disgarai.py:25-31 | walking one more member of the copy is one more iteration of the source loop: skip it if it is the sender, otherwise append its attempt and deregister it if the send failed |
| Dispatcher.BroadcastLoop | disgarai.py:24-31 | the loop over a copy of the list, with a deregistration on each failed send, computes the same final list and the same attempts as the fold |
| Session.JoinAnnounces | disgarai.py:128-133 | a join registers the connection first; its notice counts the list after the append, goes to every other registered connection but never the newcomer, and the newcomer stays registered |
| Session.JoinFresh | disgarai.py:128-133 | for a new connection on a duplicate-free registry, the join notice reaches exactly the earlier members; afterwards the list is the members whose send succeeded followed by the newcomer, with no duplicates |
| Session.ReceiveRelays | disgarai.py:136-138 | inbound text is broadcast verbatim to every member except its sender, with no echo; on a duplicate-free registry only the failing receivers are removed |
| Session.CloseAnnounces | disgarai.py:140-146 | on a disconnect the connection is removed first; the leave notice then goes to every remaining member (not the leaver, on a duplicate-free registry) and counts the list after the removal; the failing receivers are removed too |
| Session.ErrorIsSilent | disgarai.py:147-149 | on any other error the connection is removed and nothing at all is sent |
| Session.NextValid | disgarai.py:126-149 | any admissible session event keeps the registry duplicate-free and made only of open sessions |
| Session.RunValid | disgarai.py:126-149 | every admissible interleaving of session events, with any send failures, keeps the registry duplicate-free and made only of open sessions |
| Session.InitValid | disgarai.py:13-14 | the registry starts empty, which satisfies the invariant |
| Session.ThreeClientsJoin | disgarai.py:128-133 | clients 1, 2 and 3 join in turn; each join notice reaches exactly the clients already there and carries the new count |
| Session.ThreeClientsRelay | disgarai.py:24-31 | client 1's "hi" reaches only 2 and 3; when the send to 2 fails, 3 still gets it and only 2 is deregistered |
| Session.ThreeClientsLeave | disgarai.py:140-149 | when 3 disconnects, 1 and 2 each get one leave notice counting 2; when 3 errors instead, nobody is notified |

## Left out

- The HTML page and client script served by `home` (disgarai.py:42-121). It is static markup run by the browser, not server logic.
- `cliente.py` and the commented-out PyQt block (disgarai.py:154-184). They are a desktop window around an embedded browser, with no protocol logic.
- Process start-up through `uvicorn.run` and the `PORT` lookup (disgarai.py:186-189). These are configuration and I/O.
- `websocket.accept`, `receive_text`, `send_text` and the exception machinery. They are library calls: inbound traffic is an `Event` stream and send outcomes are the `failed` oracle. A failed handshake in `accept` is not modelled.
- async scheduling. Each registry operation, and each whole event with its broadcast, is one atomic step. Sends from two broadcasts cannot interleave in the model, though they can in the running server.
- `json.dumps` of the notices and their exact text, including the user label "Servidor" they carry (disgarai.py:130, 143). A notice is a `Notice(presence, count)` value standing for `{"user": "Servidor", "text": "... Conexões ativas: N"}`. A client could send text equal to a notice's JSON, which the model cannot express.
- The `print` on the error path (disgarai.py:148).
- Per-attempt send outcomes. The oracle is one set per broadcast. So a connection that occurs twice in the copy fails both of its attempts or neither, while the real transport could differ between the two. Duplicates never arise from admissible sessions (`Session.RunValid`).
