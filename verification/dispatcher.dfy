/** The broadcast dispatcher of the connection manager. A broadcast copies the
    registry, then walks the copy in order, skipping the sender, and makes one
    send attempt per member; a member whose send fails is deregistered from the
    live registry and the walk goes on with the next member of the copy.

    The transport is replaced by an oracle: `failed` is the set of connections
    whose send raises during this broadcast. The sends themselves are recorded
    as a trace of attempts. */
module Dispatcher {

  import opened Optional
  import opened Registry

  datatype SendResult = Sent | Failed

  /** One send attempt of `msg` to connection `to`. */
  datatype Attempt<M> = Attempt(to: ConnId, msg: M, result: SendResult)

  /** What a broadcast leaves behind: the live registry and the attempts made. */
  datatype Dispatch<M> = Dispatch(registry: seq<ConnId>, trace: seq<Attempt<M>>)

  /** The connections a broadcast skips: the sender, if there is one. */
  function Excluded(sender: Option<ConnId>): set<ConnId> {
    match sender
    case None => {}
    case Some(c) => {c}
  }

  /** The attempt the oracle decides for a send of `msg` to `c`. */
  function Send<M>(c: ConnId, msg: M, failed: set<ConnId>): Attempt<M> {
    Attempt(c, msg, if c in failed then Failed else Sent)
  }

  /** The connections addressed by a trace, in order. */
  function Targets<M>(trace: seq<Attempt<M>>): seq<ConnId> {
    seq(|trace|, i requires 0 <= i < |trace| => trace[i].to)
  }

  /** The connections a trace actually delivered to, in order. */
  function Delivered<M>(trace: seq<Attempt<M>>): seq<ConnId> {
    if trace == [] then []
    else (if trace[0].result == Sent then [trace[0].to] else []) + Delivered(trace[1..])
  }

  /** The walk over the copy: `pending` is what is left of the copy taken at
      entry, `live` is the registry as mutated so far. The attempts depend
      only on the copy, never on the live registry (see `DeliverTrace`). */
  function Deliver<M>(pending: seq<ConnId>, live: seq<ConnId>, msg: M,
                      sender: Option<ConnId>, failed: set<ConnId>): Dispatch<M>
    decreases |pending|
  {
    if pending == [] then Dispatch(live, [])
    else
      var c := pending[0];
      if Some(c) == sender then
        Deliver(pending[1..], live, msg, sender, failed)
      else
        var rest := Deliver(pending[1..], if c in failed then Disconnect(live, c) else live,
                            msg, sender, failed);
        Dispatch(rest.registry, [Send(c, msg, failed)] + rest.trace)
  }

  /** Broadcast `msg` to every registered connection except `sender`: walk a
      copy of the registry, starting from the registry itself. */
  function Broadcast<M>(reg: seq<ConnId>, msg: M, sender: Option<ConnId>,
                        failed: set<ConnId>): Dispatch<M>
  {
    Deliver(reg, reg, msg, sender, failed)
  }

  /** The loop of the source, over an explicit copy of the registry; it
      computes the same registry and the same attempts as the fold. */
  method BroadcastLoop<M>(reg: seq<ConnId>, msg: M, sender: Option<ConnId>, failed: set<ConnId>)
    returns (live: seq<ConnId>, trace: seq<Attempt<M>>)
    ensures Dispatch(live, trace) == Broadcast(reg, msg, sender, failed)
  {
    var snapshot := reg;
    live := reg;
    trace := [];
    var i := 0;
    while i < |snapshot|
      invariant 0 <= i <= |snapshot|
      invariant Dispatch(live, trace) == Deliver(snapshot[..i], reg, msg, sender, failed)
    {
      var connection := snapshot[i];
      DeliverSnoc(snapshot[..i], connection, reg, msg, sender, failed);
      assert snapshot[..i + 1] == snapshot[..i] + [connection];
      if Some(connection) != sender {
        var attempt := Send(connection, msg, failed);
        if attempt.result == Failed {
          live := Disconnect(live, connection);
        }
        trace := trace + [attempt];
      }
      i := i + 1;
    }
    assert snapshot[..i] == reg;
  }

  /** Walking one more member of the copy extends the walk so far by one
      iteration of the source loop. */
  lemma {:induction false} DeliverSnoc<M>(pending: seq<ConnId>, c: ConnId, live: seq<ConnId>, msg: M,
                                          sender: Option<ConnId>, failed: set<ConnId>)
    ensures var d := Deliver(pending, live, msg, sender, failed);
      Deliver(pending + [c], live, msg, sender, failed) ==
        if Some(c) == sender then d
        else Dispatch(if c in failed then Disconnect(d.registry, c) else d.registry,
                      d.trace + [Send(c, msg, failed)])
    decreases |pending|
  {
    if pending == [] {
      assert pending + [c] == [c];
    } else {
      var x := pending[0];
      assert (pending + [c])[0] == x && (pending + [c])[1..] == pending[1..] + [c];
      var live' := if Some(x) != sender && x in failed then Disconnect(live, x) else live;
      DeliverSnoc(pending[1..], c, live', msg, sender, failed);
      if Some(x) != sender {
        var rest := Deliver(pending[1..], live', msg, sender, failed).trace;
        assert [Send(x, msg, failed)] + (rest + [Send(c, msg, failed)])
          == ([Send(x, msg, failed)] + rest) + [Send(c, msg, failed)];
      }
    }
  }

  // ---------------------------------------------------------------------
  // Properties of a broadcast
  // ---------------------------------------------------------------------

  /** Every member of the copy other than the sender is attempted once, in
      copy order, whatever happened to the members before it; each attempt
      carries the message unchanged and fails exactly when the oracle says so. */
  lemma {:induction false} DeliverTrace<M>(pending: seq<ConnId>, live: seq<ConnId>, msg: M,
                                           sender: Option<ConnId>, failed: set<ConnId>)
    ensures Targets(Deliver(pending, live, msg, sender, failed).trace)
      == Without(pending, Excluded(sender))
    decreases |pending|
  {
    if pending != [] {
      var c := pending[0];
      var live' := if c in failed && Some(c) != sender then Disconnect(live, c) else live;
      DeliverTrace(pending[1..], live', msg, sender, failed);
      var rest := Deliver(pending[1..], live', msg, sender, failed).trace;
      if Some(c) == sender {
        assert c in Excluded(sender);
      } else {
        assert c !in Excluded(sender);
        var t := Deliver(pending, live, msg, sender, failed).trace;
        assert t == [Send(c, msg, failed)] + rest;
        TargetsCons(Send(c, msg, failed), rest);
      }
    }
  }

  lemma TargetsCons<M>(a: Attempt<M>, t: seq<Attempt<M>>)
    ensures Targets([a] + t) == [a.to] + Targets(t)
  {
  }

  lemma {:induction false} DeliverSends<M>(pending: seq<ConnId>, live: seq<ConnId>, msg: M,
                                           sender: Option<ConnId>, failed: set<ConnId>)
    ensures forall a :: a in Deliver(pending, live, msg, sender, failed).trace ==>
      a == Send(a.to, msg, failed)
    decreases |pending|
  {
    if pending != [] {
      var c := pending[0];
      var live' := if c in failed && Some(c) != sender then Disconnect(live, c) else live;
      DeliverSends(pending[1..], live', msg, sender, failed);
    }
  }

  /** The addressees of a broadcast are exactly the registry without the
      sender, in registry order; the sender is never addressed, every attempt
      carries the message verbatim and fails exactly on the failing members. */
  lemma BroadcastTargets<M>(reg: seq<ConnId>, msg: M, sender: Option<ConnId>, failed: set<ConnId>)
    ensures Targets(Broadcast(reg, msg, sender, failed).trace) == Without(reg, Excluded(sender))
    ensures forall a :: a in Broadcast(reg, msg, sender, failed).trace ==>
      sender != Some(a.to) && a.to in reg && a.msg == msg && (a.result == Failed <==> a.to in failed)
  {
    DeliverTrace(reg, reg, msg, sender, failed);
    DeliverSends(reg, reg, msg, sender, failed);
    var t := Broadcast(reg, msg, sender, failed).trace;
    forall a | a in t
      ensures sender != Some(a.to) && a.to in reg
    {
      var k :| 0 <= k < |t| && t[k] == a;
      assert Targets(t)[k] == a.to;
    }
  }

  /** Without a sender every registered connection is addressed. */
  lemma BroadcastToAll<M>(reg: seq<ConnId>, msg: M, failed: set<ConnId>)
    ensures Targets(Broadcast(reg, msg, None, failed).trace) == reg
  {
    BroadcastTargets(reg, msg, None, failed);
    WithoutNothing(reg);
  }

  /** On a duplicate-free registry every member other than the sender gets
      exactly one attempt and nobody else gets any. */
  lemma BroadcastOnce<M>(reg: seq<ConnId>, msg: M, sender: Option<ConnId>,
                         failed: set<ConnId>, c: ConnId)
    requires NoDup(reg)
    ensures multiset(Targets(Broadcast(reg, msg, sender, failed).trace))[c]
      == if c in reg && sender != Some(c) then 1 else 0
  {
    BroadcastTargets(reg, msg, sender, failed);
    WithoutNoDup(reg, Excluded(sender));
    NoDupCount(Without(reg, Excluded(sender)), c);
  }

  lemma {:induction false} DeliverDelivered<M>(pending: seq<ConnId>, live: seq<ConnId>, msg: M,
                                               sender: Option<ConnId>, failed: set<ConnId>)
    ensures Delivered(Deliver(pending, live, msg, sender, failed).trace)
      == Without(pending, Excluded(sender) + failed)
    decreases |pending|
  {
    if pending != [] {
      var c := pending[0];
      if Some(c) == sender {
        DeliverDelivered(pending[1..], live, msg, sender, failed);
      } else {
        var live' := if c in failed then Disconnect(live, c) else live;
        DeliverDelivered(pending[1..], live', msg, sender, failed);
        var t := Deliver(pending, live, msg, sender, failed).trace;
        var rest := Deliver(pending[1..], live', msg, sender, failed).trace;
        assert t == [Send(c, msg, failed)] + rest;
        assert t[1..] == rest;
      }
    }
  }

  /** A broadcast reaches exactly the members that are neither the sender
      nor failing, in registry order. */
  lemma BroadcastDelivered<M>(reg: seq<ConnId>, msg: M, sender: Option<ConnId>, failed: set<ConnId>)
    ensures Delivered(Broadcast(reg, msg, sender, failed).trace) == Without(reg, Excluded(sender) + failed)
  {
    DeliverDelivered(reg, reg, msg, sender, failed);
  }

  lemma {:induction false} DeliverKeeps<M>(pending: seq<ConnId>, live: seq<ConnId>, msg: M,
                                           sender: Option<ConnId>, failed: set<ConnId>)
    ensures multiset(Deliver(pending, live, msg, sender, failed).registry) <= multiset(live)
    ensures forall x :: (x !in failed || sender == Some(x)) ==>
      multiset(Deliver(pending, live, msg, sender, failed).registry)[x] == multiset(live)[x]
    decreases |pending|
  {
    if pending != [] {
      var c := pending[0];
      if Some(c) == sender {
        DeliverKeeps(pending[1..], live, msg, sender, failed);
      } else if c in failed {
        DeliverKeeps(pending[1..], Disconnect(live, c), msg, sender, failed);
        DisconnectMultiset(live, c);
      } else {
        DeliverKeeps(pending[1..], live, msg, sender, failed);
      }
    }
  }

  /** A member that is not failing, and the sender, keep every occurrence in
      the registry, duplicates or not: no one is removed except through a
      failed send, and nobody is added. */
  lemma BroadcastKeeps<M>(reg: seq<ConnId>, msg: M, sender: Option<ConnId>, failed: set<ConnId>)
    ensures multiset(Broadcast(reg, msg, sender, failed).registry) <= multiset(reg)
    ensures forall x :: (x !in failed || sender == Some(x)) ==>
      multiset(Broadcast(reg, msg, sender, failed).registry)[x] == multiset(reg)[x]
  {
    DeliverKeeps(reg, reg, msg, sender, failed);
  }

  /** The members of the copy whose send fails: the ones a walk removes. */
  function Dropped(pending: seq<ConnId>, sender: Option<ConnId>, failed: set<ConnId>): set<ConnId> {
    set x | x in pending && x in failed && sender != Some(x)
  }

  lemma {:induction false} DeliverRegistry<M>(pending: seq<ConnId>, live: seq<ConnId>, msg: M,
                                              sender: Option<ConnId>, failed: set<ConnId>)
    requires NoDup(live)
    ensures Deliver(pending, live, msg, sender, failed).registry
      == Without(live, Dropped(pending, sender, failed))
    decreases |pending|
  {
    if pending == [] {
      WithoutAgree(live, Dropped(pending, sender, failed), {});
      WithoutNothing(live);
    } else {
      var c := pending[0];
      var tail := pending[1..];
      assert forall x :: x in pending <==> x == c || x in tail;
      if Some(c) == sender || c !in failed {
        DeliverRegistry(tail, live, msg, sender, failed);
        assert Dropped(pending, sender, failed) == Dropped(tail, sender, failed);
      } else {
        DisconnectIsWithout(live, c);
        DeliverRegistry(tail, Disconnect(live, c), msg, sender, failed);
        WithoutWithout(live, {c}, Dropped(tail, sender, failed));
        assert Dropped(pending, sender, failed) == {c} + Dropped(tail, sender, failed);
      }
    }
  }

  /** On a duplicate-free registry a broadcast removes exactly the failing
      members other than the sender; everyone else stays, in order. */
  lemma BroadcastRegistry<M>(reg: seq<ConnId>, msg: M, sender: Option<ConnId>, failed: set<ConnId>)
    requires NoDup(reg)
    ensures Broadcast(reg, msg, sender, failed).registry == Without(reg, failed - Excluded(sender))
    ensures NoDup(Broadcast(reg, msg, sender, failed).registry)
  {
    DeliverRegistry(reg, reg, msg, sender, failed);
    WithoutAgree(reg, Dropped(reg, sender, failed), failed - Excluded(sender));
    WithoutNoDup(reg, failed - Excluded(sender));
  }

}
