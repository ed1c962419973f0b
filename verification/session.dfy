/** The per-connection session of the WebSocket endpoint, as a step function
    over the registry. A session registers its connection and announces the
    join to everyone else, then relays every inbound text to everyone else,
    and ends either on a disconnect signal (deregister, announce the leave to
    everyone) or on any other error (deregister, announce nothing).

    The transport's events become `Event` values and the outcome of each send
    during the broadcast an event causes is the oracle `failed`. Each event is
    handled atomically. */
module Session {

  import opened Optional
  import opened Registry
  import opened Dispatcher

  datatype Presence = Joined | Left

  /** What a broadcast carries: the text a client sent, relayed exactly as
      received, or a server notice (user label "Servidor") reporting a join
      or a leave together with the registry size. */
  datatype Frame = Relayed(text: string) | Notice(presence: Presence, count: nat)

  datatype Event =
    | Join(conn: ConnId)
    | Receive(conn: ConnId, text: string)
    | GracefulClose(conn: ConnId)
    | UnexpectedError(conn: ConnId)

  /** The registry and the send attempts that one event of a session causes. */
  function Handle(reg: seq<ConnId>, ev: Event, failed: set<ConnId>): Dispatch<Frame> {
    match ev
    case Join(c) =>
      var joined := Connect(reg, c);
      Broadcast(joined, Notice(Joined, |joined|), Some(c), failed)
    case Receive(c, text) =>
      Broadcast(reg, Relayed(text), Some(c), failed)
    case GracefulClose(c) =>
      var left := Disconnect(reg, c);
      Broadcast(left, Notice(Left, |left|), None, failed)
    case UnexpectedError(c) =>
      Dispatch(Disconnect(reg, c), [])
  }

  // ---------------------------------------------------------------------
  // What each event does
  // ---------------------------------------------------------------------

  /** A join registers the newcomer before announcing it: the notice counts
      the newcomer, goes to every other registered connection and never to
      the newcomer itself, which stays registered whatever the sends do. */
  lemma JoinAnnounces(reg: seq<ConnId>, c: ConnId, failed: set<ConnId>)
    ensures var d := Handle(reg, Join(c), failed);
      Targets(d.trace) == Without(reg, {c}) &&
      (forall a :: a in d.trace ==> a.msg == Notice(Joined, |reg| + 1)) &&
      c in d.registry
  {
    var joined := Connect(reg, c);
    var d := Handle(reg, Join(c), failed);
    BroadcastTargets(joined, Notice(Joined, |joined|), Some(c), failed);
    BroadcastKeeps(joined, Notice(Joined, |joined|), Some(c), failed);
    assert joined == reg + [c];
    WithoutAppend(reg, [c], {c});
    assert Without([c], {c}) == [];
    assert joined[|reg|] == c;
  }

  /** For a connection that is really new and a duplicate-free registry, the
      join notice reaches exactly the members registered before, and after it
      the registry holds the members whose send did not fail, then the
      newcomer. */
  lemma JoinFresh(reg: seq<ConnId>, c: ConnId, failed: set<ConnId>)
    requires NoDup(reg) && c !in reg
    ensures Targets(Handle(reg, Join(c), failed).trace) == reg
    ensures Handle(reg, Join(c), failed).registry == Without(reg, failed) + [c]
    ensures NoDup(Handle(reg, Join(c), failed).registry)
  {
    var joined := Connect(reg, c);
    JoinAnnounces(reg, c, failed);
    WithoutAgree(reg, {c}, {});
    WithoutNothing(reg);
    ConnectNoDup(reg, c);
    BroadcastRegistry(joined, Notice(Joined, |joined|), Some(c), failed);
    assert joined == reg + [c];
    WithoutAppend(reg, [c], failed - {c});
    WithoutAgree(reg, failed - {c}, failed);
    assert Without([c], failed - {c}) == [c];
  }

  /** Inbound text is relayed verbatim, with no echo: every member except the
      sender is addressed, the sender is not, and on a duplicate-free registry
      only the members whose send fails are removed. */
  lemma ReceiveRelays(reg: seq<ConnId>, c: ConnId, text: string, failed: set<ConnId>)
    ensures var d := Handle(reg, Receive(c, text), failed);
      Targets(d.trace) == Without(reg, {c}) &&
      forall a :: a in d.trace ==> a.msg == Relayed(text) && a.to != c
    ensures NoDup(reg) ==>
      Handle(reg, Receive(c, text), failed).registry == Without(reg, failed - {c})
  {
    BroadcastTargets(reg, Relayed(text), Some(c), failed);
    if NoDup(reg) {
      BroadcastRegistry(reg, Relayed(text), Some(c), failed);
    }
  }

  /** A graceful close deregisters first, then announces the leave to every
      remaining member; the notice counts the registry after the removal, so
      one less than before when the connection was registered. */
  lemma CloseAnnounces(reg: seq<ConnId>, c: ConnId, failed: set<ConnId>)
    ensures var d := Handle(reg, GracefulClose(c), failed);
      Targets(d.trace) == Disconnect(reg, c) &&
      forall a :: a in d.trace ==>
        a.msg == Notice(Left, if c in reg then |reg| - 1 else |reg|)
    ensures NoDup(reg) ==>
      var d := Handle(reg, GracefulClose(c), failed);
      c !in Targets(d.trace) &&
      d.registry == Without(reg, {c} + failed)
  {
    var left := Disconnect(reg, c);
    assert |left| == if c in reg then |reg| - 1 else |reg|;
    assert Handle(reg, GracefulClose(c), failed) == Broadcast(left, Notice(Left, |left|), None, failed);
    BroadcastTargets(left, Notice(Left, |left|), None, failed);
    BroadcastToAll(left, Notice(Left, |left|), failed);
    if NoDup(reg) {
      DisconnectIsWithout(reg, c);
      BroadcastRegistry(left, Notice(Left, |left|), None, failed);
      WithoutWithout(reg, {c}, failed - Excluded(None));
      assert failed - Excluded(None) == failed;
    }
  }

  /** Any other error deregisters the connection and announces nothing. */
  lemma ErrorIsSilent(reg: seq<ConnId>, c: ConnId, failed: set<ConnId>)
    ensures Handle(reg, UnexpectedError(c), failed).trace == []
    ensures multiset(Handle(reg, UnexpectedError(c), failed).registry) == multiset(reg) - multiset{c}
    ensures NoDup(reg) ==> Handle(reg, UnexpectedError(c), failed).registry == Without(reg, {c})
  {
    assert Handle(reg, UnexpectedError(c), failed) == Dispatch(Disconnect(reg, c), []);
    DisconnectMultiset(reg, c);
    if NoDup(reg) {
      DisconnectIsWithout(reg, c);
    }
  }

  // ---------------------------------------------------------------------
  // The server as a whole: every session's events, one at a time
  // ---------------------------------------------------------------------

  datatype Phase = Open | Closed

  /** The registry plus the phase of every session ever started. */
  datatype Server = Server(registry: seq<ConnId>, sessions: map<ConnId, Phase>)

  const Init := Server([], map[])

  /** The order the transport imposes on a session's events: a join comes
      from a connection never seen before (every connection is a new
      transport object) and every other event from a session that is open. */
  predicate Admissible(s: Server, ev: Event) {
    match ev
    case Join(c) => c !in s.sessions
    case Receive(c, _) => c in s.sessions && s.sessions[c] == Open
    case GracefulClose(c) => c in s.sessions && s.sessions[c] == Open
    case UnexpectedError(c) => c in s.sessions && s.sessions[c] == Open
  }

  function Next(s: Server, ev: Event, failed: set<ConnId>): Server
    requires Admissible(s, ev)
  {
    var sessions := match ev
      case Join(c) => s.sessions[c := Open]
      case Receive(_, _) => s.sessions
      case GracefulClose(c) => s.sessions[c := Closed]
      case UnexpectedError(c) => s.sessions[c := Closed];
    Server(Handle(s.registry, ev, failed).registry, sessions)
  }

  /** The registry never holds a connection twice and only holds connections
      whose session is still open. (A session whose connection was dropped by
      a failed send stays open until its own close, so the inclusion is
      strict in general.) */
  predicate Valid(s: Server) {
    && NoDup(s.registry)
    && forall c :: c in s.registry ==> c in s.sessions && s.sessions[c] == Open
  }

  lemma NextValid(s: Server, ev: Event, failed: set<ConnId>)
    requires Valid(s) && Admissible(s, ev)
    ensures Valid(Next(s, ev, failed))
  {
    var s' := Next(s, ev, failed);
    match ev
    case Join(c) =>
      assert c !in s.registry;
      JoinFresh(s.registry, c, failed);
    case Receive(c, text) =>
      ReceiveRelays(s.registry, c, text, failed);
      WithoutNoDup(s.registry, failed - {c});
    case GracefulClose(c) =>
      CloseAnnounces(s.registry, c, failed);
      WithoutNoDup(s.registry, {c} + failed);
    case UnexpectedError(c) =>
      ErrorIsSilent(s.registry, c, failed);
      WithoutNoDup(s.registry, {c});
  }

  /** One event together with the send outcomes of the broadcast it causes. */
  datatype Step = Step(event: Event, failed: set<ConnId>)

  predicate Admits(s: Server, steps: seq<Step>)
    decreases |steps|
  {
    steps == [] ||
    (Admissible(s, steps[0].event) &&
     Admits(Next(s, steps[0].event, steps[0].failed), steps[1..]))
  }

  function Run(s: Server, steps: seq<Step>): Server
    requires Admits(s, steps)
    decreases |steps|
  {
    if steps == [] then s
    else Run(Next(s, steps[0].event, steps[0].failed), steps[1..])
  }

  /** However the sessions interleave and whichever sends fail, the registry
      stays duplicate-free and holds only open sessions. */
  lemma {:induction false} RunValid(s: Server, steps: seq<Step>)
    requires Valid(s) && Admits(s, steps)
    ensures Valid(Run(s, steps))
    decreases |steps|
  {
    if steps != [] {
      NextValid(s, steps[0].event, steps[0].failed);
      RunValid(Next(s, steps[0].event, steps[0].failed), steps[1..]);
    }
  }

  lemma InitValid()
    ensures Valid(Init)
  {
  }

  // ---------------------------------------------------------------------
  // A scenario: three clients, one message, one departure
  // ---------------------------------------------------------------------

  /** Clients 1, 2 and 3 join in that order; each join notice reaches the
      clients already there and counts the newcomer. */
  lemma ThreeClientsJoin()
    ensures Handle([], Join(1), {}) == Dispatch([1], [])
    ensures Handle([1], Join(2), {}) == Dispatch([1, 2], [Attempt(1, Notice(Joined, 2), Sent)])
    ensures Handle([1, 2], Join(3), {}) ==
      Dispatch([1, 2, 3], [Attempt(1, Notice(Joined, 3), Sent), Attempt(2, Notice(Joined, 3), Sent)])
  {
    assert [1, 2, 3][1..] == [2, 3];
    assert [1, 2][1..] == [2];
  }

  /** Client 1 sends "hi": it reaches 2 and 3 only. If the send to 2 fails,
      3 still receives the text and only 2 is dropped. */
  lemma ThreeClientsRelay()
    ensures Handle([1, 2, 3], Receive(1, "hi"), {}) ==
      Dispatch([1, 2, 3], [Attempt(2, Relayed("hi"), Sent), Attempt(3, Relayed("hi"), Sent)])
    ensures Handle([1, 2, 3], Receive(1, "hi"), {2}) ==
      Dispatch([1, 3], [Attempt(2, Relayed("hi"), Failed), Attempt(3, Relayed("hi"), Sent)])
  {
    assert [1, 2, 3][1..] == [2, 3];
    assert [2, 3][1..] == [3];
  }

  /** Client 3 leaves: on a disconnect signal 1 and 2 each get one leave
      notice counting two connections; on any other error nobody hears. */
  lemma ThreeClientsLeave()
    ensures Handle([1, 2, 3], GracefulClose(3), {}) ==
      Dispatch([1, 2], [Attempt(1, Notice(Left, 2), Sent), Attempt(2, Notice(Left, 2), Sent)])
    ensures Handle([1, 2, 3], UnexpectedError(3), {}) == Dispatch([1, 2], [])
  {
    assert [1, 2, 3][1..] == [2, 3];
    assert [2, 3][1..] == [3];
    assert [1, 2][1..] == [2];
  }

}
