/** The event loop: batches of ready descriptors, each dispatched to its handler, and teardown
    only once a batch is through. */
module EventLoop {
  import opened GatewayTrace
  import opened GatewayModel
  import opened GatewayRuns
  import opened GatewayDispatch
  import opened SessionManager
  import opened Gateway

  /** How many datagrams of the tunnel a batch holds. */
  function Arrivals(batch: seq<Wakeup>): nat {
    if batch == [] then 0 else Arrivals(batch[..|batch| - 1]) + |batch[|batch| - 1].arrivals|
  }

  lemma {:induction false} ArrivalsOn(batch: seq<Wakeup>, i: nat)
    requires i < |batch|
    ensures Arrivals(batch[..i + 1]) == Arrivals(batch[..i]) + |batch[i].arrivals| <= Arrivals(batch)
    decreases |batch|
  {
    var init := batch[..|batch| - 1];
    assert batch[..i + 1][..i] == batch[..i];
    if i < |init| {
      ArrivalsOn(init, i);
      assert init[..i + 1] == batch[..i + 1] && init[..i] == batch[..i];
    } else {
      assert batch[..i + 1] == batch;
    }
  }

  lemma SweepStep(st: State, now: nat, idleMs: nat, order: seq<nat>)
    requires Inv(st) && st.clock <= now && Enumerates(st, now, idleMs, order)
    ensures var st' := Sweep(st, now, idleMs, order);
            Inv(st') && Leads(st, [OnTick(now, idleMs, order)], st') && st'.sessions.Keys == st.sessions.Keys
  {
    hide Inv, Leads, Enumerates, MarkAll;
    SweepInv(st, now, idleMs, order);
    LeadsByOne(st, OnTick(now, idleMs, order));
    MarkAllKeys(Swept(st, now), order);
  }

  /** The datagrams handled one by one are a run without teardown. */
  lemma HandledLeads(st: State, arrivals: seq<Datagram>, legs: seq<Leg>)
    requires HandledAll(st, arrivals, legs)
    ensures Leads(st, StepsOf(legs), EndOf(st, legs))
  {
    hide Handled;
    JoinedRun(st, legs);
    StepsBatch(legs);
  }

  lemma DispatchedTunnel(loop: Loop, st: State, w: Wakeup, legs: seq<Leg>)
    requires w.fd == loop.clientFd && HandledAll(st, w.arrivals, legs)
    ensures Dispatched(loop, st, w, StepsOf(legs))
  {
  }

  lemma NoneDispatched(loop: Loop, st: State)
    ensures DispatchedAll(loop, st, [], []) && EndOf(st, []) == st && Arrivals([]) == 0
  {
  }

  lemma OneDispatched(loop: Loop, st: State, batch: seq<Wakeup>, i: nat, legs: seq<Leg>, leg: Leg)
    requires i < |batch| && DispatchedAll(loop, st, batch[..i], legs) && leg.from == EndOf(st, legs)
    requires Leads(leg.from, leg.steps, leg.to) && Dispatched(loop, leg.from, batch[i], leg.steps)
    ensures DispatchedAll(loop, st, batch[..i + 1], legs + [leg]) && EndOf(st, legs + [leg]) == leg.to
  {
    hide Dispatched, IsRun, After, IsBatch, Joined, EndOf, Batches;
    JoinedOn(st, legs, leg);
    BatchesOn(legs, leg);
    var all, upTo := legs + [leg], batch[..i + 1];
    forall r | 0 <= r < |all| ensures DispatchedIn(loop, all[r], upTo[r]) {
      if r < i { assert all[r] == legs[r] && upTo[r] == batch[..i][r]; }
    }
  }

  /** A batch without anything to tear down. */
  lemma TurnOnly(loop: Loop, st: State, batch: seq<Wakeup>, legs: seq<Leg>)
    requires Inv(st) && DispatchedAll(loop, st, batch, legs) && EndOf(st, legs).toErase == []
    ensures Turn(loop, st, batch, StepsOf(legs))
    ensures IsRun(st, StepsOf(legs)) && After(st, StepsOf(legs)) == EndOf(st, legs)
  {
    hide Inv, Dispatched, IsRun, After, EndOf;
    BatchIsFaithful(loop, st, batch, legs);
    JoinedRun(st, legs);
    assert StepsOf(legs) + [] == StepsOf(legs);
    assert TurnAs(loop, st, batch, legs, StepsOf(legs));
  }

  /** A batch and its teardown. */
  lemma TurnFlush(loop: Loop, st: State, batch: seq<Wakeup>, legs: seq<Leg>)
    requires Inv(st) && DispatchedAll(loop, st, batch, legs) && EndOf(st, legs).toErase != []
    ensures var steps := StepsOf(legs) + [OnTeardown];
            Turn(loop, st, batch, steps) && IsRun(st, steps) && After(st, steps) == Flush(EndOf(st, legs))
  {
    hide Inv, Dispatched, EndOf, Flush;
    BatchIsFaithful(loop, st, batch, legs);
    JoinedRun(st, legs);
    var st1 := EndOf(st, legs);
    var st2 := Apply(st1, OnTeardown);
    assert [OnTeardown][1..] == [] && IsRun(st2, []) && After(st2, []) == st2;
    RunJoin(st, StepsOf(legs), [OnTeardown]);
    assert TurnAs(loop, st, batch, legs, StepsOf(legs) + [OnTeardown]);
  }

  lemma Armed(st: State)
    requires Inv(st)
    ensures st.ticking <==> |st.sessions| > 0
  {
  }

  /** What the tables say about the descriptors of the loop and of sessions. */
  lemma FdsApart(st: State, fd: int)
    requires Inv(st) && fd in st.byFd
    ensures fd !in st.fixed && st.byFd[fd] in st.sessions
  {
    assert Descriptors(st) && Indexed(st);
  }

  /** All turns so far: each leg is the turn of its batch. */
  ghost predicate Turns(loop: Loop, st: State, batches: seq<seq<Wakeup>>, turns: seq<Leg>) {
    && |turns| == |batches| && Joined(st, turns)
    && forall i :: 0 <= i < |turns| ==> Turn(loop, turns[i].from, batches[i], turns[i].steps)
  }

  lemma NoTurns(loop: Loop, st: State)
    ensures Turns(loop, st, [], []) && EndOf(st, []) == st
  {
  }

  lemma OneTurn(loop: Loop, st: State, batches: seq<seq<Wakeup>>, i: nat, turns: seq<Leg>, leg: Leg)
    requires i < |batches| && Turns(loop, st, batches[..i], turns) && leg.from == EndOf(st, turns)
    requires IsRun(leg.from, leg.steps) && After(leg.from, leg.steps) == leg.to
    requires Turn(loop, leg.from, batches[i], leg.steps)
    ensures Turns(loop, st, batches[..i + 1], turns + [leg]) && EndOf(st, turns + [leg]) == leg.to
  {
    hide Turn, IsRun, After, Joined, EndOf;
    JoinedOn(st, turns, leg);
    var all, upTo := turns + [leg], batches[..i + 1];
    forall r | 0 <= r < |all| ensures Turn(loop, all[r].from, upTo[r], all[r].steps) {
      if r < i { assert all[r] == turns[r] && upTo[r] == batches[..i][r]; }
    }
  }

  lemma TurnsTrace(loop: Loop, st: State, batches: seq<seq<Wakeup>>, turns: seq<Leg>)
    requires Init(st) && Turns(loop, st, batches, turns)
    ensures Lawful(EndOf(st, turns).log)
  {
    hide Turn, IsRun, After, Lawful;
    JoinedRun(st, turns);
    RunTrace(st, StepsOf(turns));
  }

  class EventLoop {
    const gateway: Gateway
    const manager: SessionManager
    const clientFd: int
    const timerFd: int

    constructor (g: Gateway, client: int, timer: int)
      requires client in g.manager.os.fixed && timer in g.manager.os.fixed
      ensures Wired() && gateway == g && clientFd == client && timerFd == timer
    {
      gateway, manager, clientFd, timerFd := g, g.manager, client, timer;
    }

    predicate Wired() {
      manager == gateway.manager && clientFd in manager.os.fixed && timerFd in manager.os.fixed
    }

    function Config(): Loop {
      Loop(clientFd, timerFd, manager.idleMs)
    }

    /** The tick: the idle sweep.  KCP's own timers only repeat what was sent before. */
    method OnTimer() returns (ghost steps: seq<Step>)
      requires Inv(manager.Abs())
      modifies manager`sessions, manager`toErase, manager`lastIdleSweep, manager.os`clock, manager.os`log
      ensures Inv(manager.Abs()) && Leads(old(manager.Abs()), steps, manager.Abs())
      ensures manager.sessions.Keys == old(manager.sessions.Keys)
      ensures |steps| == 1 && steps[0].OnTick? && steps[0].idleMs == manager.idleMs && steps[0].now == manager.os.clock
    {
      hide Inv, Leads, Enumerates, MarkAll;
      ghost var st := manager.Abs();
      KnownKeys(st);
      var now := manager.os.Now();
      ghost var order := manager.SweepIdle(now);
      SameTick(st, now, manager.idleMs, order);
      SweepStep(st, now, manager.idleMs, order);
      steps := [OnTick(now, manager.idleMs, order)];
    }

    /** One ready descriptor: all it has to offer is handled. */
    method Dispatch(w: Wakeup) returns (ghost steps: seq<Step>)
      requires Wired() && gateway.Ready() && |manager.sessions| + |w.arrivals| <= CONVS
      modifies manager, manager.os, gateway.pool, gateway.pool.next
      ensures gateway.Ready() && Leads(old(gateway.Abs()), steps, gateway.Abs())
      ensures |manager.sessions| <= |old(manager.sessions)| + |w.arrivals|
      ensures gateway.pool.free == old(gateway.pool.free)
      ensures Dispatched(Config(), old(gateway.Abs()), w, steps)
    {
      hide Inv, Leads, HandledAll, RepliedAll;
      ghost var st := gateway.Abs();
      LeadsNowhere(st);
      steps := [];
      if w.fd == clientFd {
        ghost var legs := gateway.HandleTunnelDatagram(w.arrivals);
        HandledLeads(st, w.arrivals, legs);
        DispatchedTunnel(Config(), st, w, legs);
        steps := StepsOf(legs);
      } else if w.fd == timerFd {
        steps := OnTimer();
        assert |manager.sessions.Keys| == |old(manager.sessions).Keys|;
      } else {
        var found, c := manager.ByFd(w.fd);
        if found {
          FdsApart(st, w.fd);
          steps := gateway.HandleTargetReply(c, w.fd, w.replies);
          assert |manager.sessions.Keys| == |old(manager.sessions).Keys|;
        }
      }
    }

    /** A whole batch before any teardown, descriptor by descriptor. */
    method DispatchAll(batch: seq<Wakeup>) returns (ghost legs: seq<Leg>)
      requires Wired() && gateway.Ready() && |manager.sessions| + Arrivals(batch) <= CONVS
      modifies manager, manager.os, gateway.pool, gateway.pool.next
      ensures gateway.Ready() && EndOf(old(gateway.Abs()), legs) == gateway.Abs()
      ensures DispatchedAll(Config(), old(gateway.Abs()), batch, legs)
      ensures Faithful(old(gateway.Abs()), batch, legs)
      ensures gateway.pool.free == old(gateway.pool.free)
    {
      hide Inv, Leads, Gateway.Ready, DispatchedAll, Dispatched, Faithful, EndOf, Arrivals;
      gateway.Settled();
      ghost var st := gateway.Abs();
      legs := [];
      NoneDispatched(Config(), st);
      var i := 0;
      assert batch[..0] == [];
      while i < |batch|
        invariant 0 <= i <= |batch| && gateway.Ready() && EndOf(st, legs) == gateway.Abs()
        invariant DispatchedAll(Config(), st, batch[..i], legs)
        invariant |manager.sessions| <= |st.sessions| + Arrivals(batch[..i])
        invariant gateway.pool.free == old(gateway.pool.free)
      {
        ArrivalsOn(batch, i);
        ghost var st1 := gateway.Abs();
        ghost var steps := Dispatch(batch[i]);
        ghost var leg := Leg(st1, steps, gateway.Abs());
        OneDispatched(Config(), st, batch, i, legs, leg);
        legs := legs + [leg];
        i := i + 1;
      }
      assert batch[..i] == batch;
      BatchIsFaithful(Config(), st, batch, legs);
    }

    /** One turn of the loop: the batch, then the deferred teardown.  Afterwards nothing waits
        to be torn down, and the tick is armed exactly when there are sessions. */
    method RunBatch(batch: seq<Wakeup>) returns (ghost steps: seq<Step>)
      requires Wired() && gateway.Ready() && |manager.sessions| + Arrivals(batch) <= CONVS
      modifies manager, manager.os, gateway.pool, gateway.pool.next
      ensures gateway.Ready() && IsRun(old(gateway.Abs()), steps) && After(old(gateway.Abs()), steps) == gateway.Abs()
      ensures Turn(Config(), old(gateway.Abs()), batch, steps) && gateway.pool.free == old(gateway.pool.free)
      ensures manager.toErase == [] && (manager.os.armed <==> |manager.sessions| > 0)
    {
      hide Inv, Faithful, DispatchedAll, IsRun, After, Flush, Survivors, EndOf, Turn;
      gateway.Settled();
      ghost var st := gateway.Abs();
      ghost var legs := DispatchAll(batch);
      gateway.Settled();
      if manager.TeardownPending() {
        TurnFlush(Config(), st, batch, legs);
        steps := StepsOf(legs) + [OnTeardown];
        manager.FlushTeardown();
      } else {
        TurnOnly(Config(), st, batch, legs);
        steps := StepsOf(legs);
      }
      Armed(gateway.Abs());
    }

    /** The loop, for as long as epoll has batches to report and the 2^32 conversation numbers
        cannot run out: every batch up to `done` has its turn.  What has been sent since the start
        is a lawful trace, and the pool is as it was. */
    method Run(batches: seq<seq<Wakeup>>) returns (done: nat, ghost turns: seq<Leg>)
      requires Wired() && gateway.Ready() && Init(gateway.Abs())
      modifies manager, manager.os, gateway.pool, gateway.pool.next
      ensures done <= |batches| && (done < |batches| ==> |manager.sessions| + Arrivals(batches[done]) > CONVS)
      ensures gateway.Ready() && Turns(Config(), old(gateway.Abs()), batches[..done], turns)
      ensures EndOf(old(gateway.Abs()), turns) == gateway.Abs()
      ensures Lawful(manager.os.log) && gateway.pool.free == old(gateway.pool.free)
    {
      hide Gateway.Ready, Turns, Turn, EndOf, IsRun, After, Init, Lawful;
      ghost var st := gateway.Abs();
      turns, done := [], 0;
      NoTurns(Config(), st);
      assert batches[..0] == [];
      while done < |batches| && |manager.sessions| + Arrivals(batches[done]) <= CONVS
        invariant 0 <= done <= |batches| && gateway.Ready() && EndOf(st, turns) == gateway.Abs()
        invariant Turns(Config(), st, batches[..done], turns) && gateway.pool.free == old(gateway.pool.free)
      {
        ghost var st1 := gateway.Abs();
        ghost var steps := RunBatch(batches[done]);
        ghost var leg := Leg(st1, steps, gateway.Abs());
        OneTurn(Config(), st, batches, done, turns, leg);
        turns := turns + [leg];
        done := done + 1;
      }
      TurnsTrace(Config(), st, batches[..done], turns);
    }
  }

  lemma KnownKeys(st: State)
    requires Inv(st)
    ensures Keyed(st)
  {
  }

  /** A sweep does not care whether the clock was read before. */
  lemma SameTick(st: State, now: nat, idleMs: nat, order: seq<nat>)
    requires st.clock <= now
    ensures Sweep(Tick(st, now), now, idleMs, order) == Sweep(st, now, idleMs, order)
    ensures Enumerates(Tick(st, now), now, idleMs, order) <==> Enumerates(st, now, idleMs, order)
  {
  }
}
