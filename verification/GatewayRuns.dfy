/** Whole runs of the session machine: what holds in every reachable state, and what an epoll
    batch cannot disturb. */
module GatewayRuns {
  import opened TunnelProtocol
  import opened Circle
  import opened GatewayTrace
  import opened GatewayModel

  datatype Step =
    | OnRegister(src: Addr)
    | OnDatagram(src: Addr, conv: nat, bodies: seq<Bytes>, now: nat)
    | OnMessage(conv: nat, env: Env)
    | OnDrained(conv: nat, now: nat)
    | OnReply(fd: int, payload: Bytes, now: nat)
    | OnTick(now: nat, idleMs: nat, order: seq<nat>)
    | OnTeardown

  ghost predicate Enabled(st: State, step: Step) {
    match step
    case OnRegister(_) => RoomForMore(st)
    case OnDatagram(_, _, _, now) => st.clock <= now
    case OnMessage(c, env) =>
      && c in st.sessions && !st.sessions[c].dying && st.sessions[c].inbox != []
      && |st.sessions[c].inbox[0].body| <= BLOCK && EnvAllowed(st, env)
    case OnDrained(c, now) => c in st.sessions && st.clock <= now
    case OnReply(_, _, now) => st.clock <= now
    case OnTick(now, idleMs, order) => st.clock <= now && Enumerates(st, now, idleMs, order)
    case OnTeardown => st.toErase != []
  }

  ghost function Apply(st: State, step: Step): State
    requires Enabled(st, step)
  {
    match step
    case OnRegister(src) => Register(st, src)
    case OnDatagram(src, c, bodies, now) => Feed(st, src, c, bodies, now)
    case OnMessage(c, env) => Receive(st, c, env).0
    case OnDrained(c, now) => Touch(st, c, now)
    case OnReply(fd, payload, now) => Reply(st, fd, payload, now)
    case OnTick(now, idleMs, order) => Sweep(st, now, idleMs, order)
    case OnTeardown => Flush(st)
  }

  lemma StepInv(st: State, step: Step)
    requires Inv(st) && Enabled(st, step)
    ensures Inv(Apply(st, step))
  {
    hide Inv, EnvAllowed, Enumerates, Receive, Sweep, Flush, Register, Feed, Reply, Touch;
    match step
    case OnRegister(src) => RegisterInv(st, src);
    case OnDatagram(src, c, bodies, now) => FeedInv(st, src, c, bodies, now);
    case OnMessage(c, env) => ReceiveInv(st, c, env);
    case OnDrained(c, now) => TouchInv(st, c, now);
    case OnReply(fd, payload, now) => ReplyInv(st, fd, payload, now);
    case OnTick(now, idleMs, order) => SweepInv(st, now, idleMs, order);
    case OnTeardown => TeardownReady(st); FlushInv(st);
  }

  ghost predicate IsRun(st: State, steps: seq<Step>)
    decreases |steps|
  {
    steps != [] ==> Enabled(st, steps[0]) && IsRun(Apply(st, steps[0]), steps[1..])
  }

  ghost function After(st: State, steps: seq<Step>): State
    requires IsRun(st, steps)
    decreases |steps|
  {
    if steps == [] then st else After(Apply(st, steps[0]), steps[1..])
  }

  /** The invariant holds in every reachable state. */
  lemma {:induction false} RunInv(st: State, steps: seq<Step>)
    requires Inv(st) && IsRun(st, steps)
    ensures Inv(After(st, steps))
    decreases |steps|
  {
    hide Inv, Enabled, Apply;
    if steps != [] {
      StepInv(st, steps[0]);
      RunInv(Apply(st, steps[0]), steps[1..]);
    }
  }

  /** Every trace the gateway produces is lawful, and before the counter first wraps it never
      issues a number twice, torn down or not. */
  lemma RunTrace(st: State, steps: seq<Step>)
    requires Init(st) && IsRun(st, steps)
    ensures Lawful(After(st, steps).log)
    ensures After(st, steps).ticket <= CONVS ==> Increasing(IssuedConvs(After(st, steps).log))
  {
    InitInv(st);
    RunInv(st, steps);
  }

  // ------------------------------------------------------------------ what a message leaves alone

  /** A message changes only its own session, keeps what else is queued, and unless the handler
      gives the session up it is not dying afterwards. */
  lemma HandleKeeps(st: State, c: nat, m: Message, env: Env)
    requires c in st.sessions
    ensures var r := Handle(st, c, m, env);
            && r.0.sessions.Keys == st.sessions.Keys
            && r.0.sessions[c].inbox == st.sessions[c].inbox
            && r.0.sessions[c].client == st.sessions[c].client
            && (!r.1 && !st.sessions[c].dying ==> !r.0.sessions[c].dying)
  {
    hide Parse;
  }

  // ------------------------------------------------------------------ an epoll batch

  /** What a batch leaves alone: no session leaves the table, and a session that has a
      descriptor keeps it, open and in the index, along with its endpoint and target. */
  ghost predicate Stable(st: State, st': State) {
    && (forall c :: c in st.sessions ==> c in st'.sessions && st'.sessions[c].client == st.sessions[c].client)
    && (forall c :: c in st.sessions && st.sessions[c].fd >= 0 ==>
          && st'.sessions[c].fd == st.sessions[c].fd
          && st'.sessions[c].target == st.sessions[c].target)
    && (forall c :: c in st.sessions && st.sessions[c].dying ==> st'.sessions[c].dying)
  }

  lemma StableTrans(a: State, b: State, c: State)
    requires Stable(a, b) && Stable(b, c)
    ensures Stable(a, c)
  {
  }

  lemma AmendStable(st: State, c: nat, s': Session)
    requires c in st.sessions && SameIdentity(st.sessions[c], s')
    ensures Stable(st, Amend(st, c, s'))
  {
  }

  lemma MarkAllStable(st: State, order: seq<nat>)
    requires Markable(st, order)
    ensures Stable(st, MarkAll(st, order))
  {
    hide Markable, MarkAll;
    forall c | c in st.sessions
      ensures c in MarkAll(st, order).sessions
      ensures MarkAll(st, order).sessions[c].(dying := true) == st.sessions[c].(dying := true)
      ensures st.sessions[c].dying ==> MarkAll(st, order).sessions[c].dying
    {
      MarkAllEffect(st, order, c);
    }
  }

  /** Only session `c` may have changed, and it keeps what it must. */
  lemma OneChanged(st: State, st': State, c: nat)
    requires c in st.sessions && c in st'.sessions && st'.sessions == st.sessions[c := st'.sessions[c]]
    requires st'.sessions[c].client == st.sessions[c].client
    requires st.sessions[c].fd >= 0 ==>
               st'.sessions[c].fd == st.sessions[c].fd && st'.sessions[c].target == st.sessions[c].target
    requires st.sessions[c].dying ==> st'.sessions[c].dying
    ensures Stable(st, st')
  {
  }

  lemma ConnectStable(st: State, c: nat, env: Env)
    requires c in st.sessions && st.sessions[c].fd < 0
    ensures Stable(st, HandleConnect(st, c, env).0)
  {
    hide Stable;
    OneChanged(st, HandleConnect(st, c, env).0, c);
  }

  lemma HandleStable(st: State, c: nat, m: Message, env: Env)
    requires c in st.sessions
    ensures Stable(st, Handle(st, c, m, env).0)
  {
    hide Parse, Stable, HandleConnect;
    if Parse(m.body).Packet? && Parse(m.body).packet.Connect? && st.sessions[c].fd < 0 {
      ConnectStable(st, c, env);
    } else {
      OneChanged(st, Handle(st, c, m, env).0, c);
    }
  }

  lemma ReceiveStable(st: State, c: nat, env: Env)
    requires Inv(st) && c in st.sessions && st.sessions[c].inbox != []
    ensures Stable(st, Receive(st, c, env).0)
  {
    var s := st.sessions[c];
    var s' := s.(inbox := s.inbox[1..]);
    assert SameIdentity(s, s') by { assert Keyed(st); }
    var st1 := Amend(st, c, s');
    AmendStable(st, c, s');
    HandleStable(st1, c, s.inbox[0], env);
    hide Inv, Handle, Stable, SameIdentity;
    if s.inbox[0].body != [] {
      StableTrans(st, st1, Handle(st1, c, s.inbox[0], env).0);
    }
  }

  lemma RegisterStable(st: State, src: Addr)
    requires Inv(st) && RoomForMore(st)
    ensures Stable(st, Register(st, src))
  {
    hide Probe, Around, Inv, Keyed;
    NumberInRange(st);
    NewConvIsFree(st);
  }

  lemma SweepStable(st: State, now: nat, idleMs: nat, order: seq<nat>)
    requires Enumerates(st, now, idleMs, order)
    ensures Stable(st, Sweep(st, now, idleMs, order))
  {
    hide MarkAll, Markable;
    MarkableVictims(st, now, idleMs, order);
    MarkAllStable(Swept(st, now), order);
  }

  lemma FeedStable(st: State, step: Step)
    requires step.OnDatagram? && Enabled(st, step)
    ensures Stable(st, Apply(st, step))
  {
    hide Inv;
  }

  lemma NoteStable(st: State, step: Step)
    requires (step.OnDrained? || step.OnReply?) && Inv(st) && Enabled(st, step)
    ensures Stable(st, Apply(st, step))
  {
    hide Inv;
  }

  /** Every event but the teardown between batches leaves sessions and descriptors in place. */
  lemma StepStable(st: State, step: Step)
    requires Inv(st) && Enabled(st, step) && !step.OnTeardown?
    ensures Stable(st, Apply(st, step))
  {
    hide Inv, EnvAllowed, Enumerates, Receive, Sweep, Register, Stable;
    match step
    case OnRegister(src) => RegisterStable(st, src);
    case OnDatagram(_, _, _, _) => FeedStable(st, step);
    case OnMessage(c, env) => ReceiveStable(st, c, env);
    case OnDrained(_, _) => NoteStable(st, step);
    case OnReply(_, _, _) => NoteStable(st, step);
    case OnTick(now, idleMs, order) => SweepStable(st, now, idleMs, order);
  }

  /** A batch: whatever epoll reported, dispatched before any teardown. */
  ghost predicate IsBatch(steps: seq<Step>) {
    forall i :: 0 <= i < |steps| ==> !steps[i].OnTeardown?
  }

  lemma {:induction false} BatchStable(st: State, steps: seq<Step>)
    requires Inv(st) && IsRun(st, steps) && IsBatch(steps)
    ensures Stable(st, After(st, steps))
    decreases |steps|
  {
    hide Inv, Enabled, Apply, Stable;
    if steps == [] {
      StableRefl(st);
    } else {
      var st1 := Apply(st, steps[0]);
      StepInv(st, steps[0]);
      StepStable(st, steps[0]);
      BatchStable(st1, steps[1..]);
      StableTrans(st, st1, After(st1, steps[1..]));
    }
  }

  lemma StableRefl(st: State)
    ensures Stable(st, st)
  {
  }

  /** A descriptor that epoll reported still belongs, at any later point of the batch, to the
      session that owned it when the batch was collected: it is open, it is not the key-value
      client's, and the index still leads from it to that session, with the same endpoint and
      target. */
  lemma BatchKeepsDescriptors(st: State, steps: seq<Step>, fd: int)
    requires Inv(st) && IsRun(st, steps) && IsBatch(steps) && fd in st.byFd
    ensures var st', c := After(st, steps), st.byFd[fd];
            && fd in st'.byFd && st'.byFd[fd] == c && fd in st'.open && fd != st'.kvFd
            && c in st.sessions && c in st'.sessions && st'.sessions[c].fd == fd
            && st'.sessions[c].client == st.sessions[c].client
            && st'.sessions[c].target == st.sessions[c].target
  {
    BatchStable(st, steps);
    RunInv(st, steps);
    hide IsRun, After, Course;
  }

  // ------------------------------------------------------------------ idle sessions

  /** Does `step` count as traffic of session `c`? */
  predicate Touches(st: State, step: Step, c: nat) {
    match step
    case OnDatagram(src, d, _, _) => d == c && Owns(st, src, d)
    case OnMessage(d, _) => d == c
    case OnDrained(d, _) => d == c
    case OnReply(fd, _, _) => fd in st.byFd && st.byFd[fd] == c
    case _ => false
  }

  /** The clock after a step, and what the step leaves of the time of the last sweep. */
  lemma StepClock(st: State, step: Step)
    requires Enabled(st, step)
    ensures st.clock <= Apply(st, step).clock
    ensures step.OnTick? ==> Apply(st, step).clock == step.now
    ensures Apply(st, step).lastSweep == st.lastSweep
         || (step.OnTick? && Elapsed(step.now, st.lastSweep) >= SWEEP_MS)
  {
    match step
    case OnRegister(src) => hide Probe, Around;
    case OnDatagram(src, c, bodies, now) =>
    case OnMessage(c, env) => hide Parse;
    case OnDrained(c, now) =>
    case OnReply(fd, payload, now) =>
    case OnTick(now, idleMs, order) => MarkAllClock(Swept(st, now), order);
    case OnTeardown => FlushClock(st);
  }

  lemma {:induction false} MarkAllRest(st: State, order: seq<nat>)
    ensures var st' := MarkAll(st, order);
            && st'.open == st.open && st'.byFd == st.byFd && st'.kvFd == st.kvFd
            && st'.clock == st.clock && st'.lastSweep == st.lastSweep
    decreases |order|
  {
    if order != [] {
      MarkAllRest(if order[0] in st.sessions then Mark(st, order[0]) else st, order[1..]);
    }
  }

  lemma {:induction false} MarkAllKeys(st: State, order: seq<nat>)
    ensures MarkAll(st, order).sessions.Keys == st.sessions.Keys
    decreases |order|
  {
    if order != [] {
      MarkAllKeys(if order[0] in st.sessions then Mark(st, order[0]) else st, order[1..]);
    }
  }

  lemma {:induction false} MarkAllClock(st: State, order: seq<nat>)
    ensures MarkAll(st, order).clock == st.clock && MarkAll(st, order).lastSweep == st.lastSweep
    decreases |order|
  {
    if order != [] {
      MarkAllClock(if order[0] in st.sessions then Mark(st, order[0]) else st, order[1..]);
    }
  }

  lemma {:induction false} FlushClock(st: State)
    ensures Flush(st).clock == st.clock && Flush(st).lastSweep == st.lastSweep
    decreases |st.toErase|
  {
    if st.toErase != [] {
      FlushClock(DropFirst(st));
    }
  }

  /** A step that is no traffic of a session leaves it as it is, unless it is the sweep that
      marks it. */
  lemma QuietStep(st: State, step: Step, c: nat)
    requires Inv(st) && Enabled(st, step) && !Touches(st, step, c)
    requires c in st.sessions && !st.sessions[c].dying
    ensures c in Apply(st, step).sessions
    ensures !step.OnTick? ==> Apply(st, step).sessions[c] == st.sessions[c]
    ensures step.OnTick? ==> Apply(st, step).sessions[c].(dying := false) == st.sessions[c]
  {
    hide EnvAllowed, Enumerates, Inv, Receive, Sweep, Flush, Register;
    match step
    case OnRegister(src) => QuietRegister(st, src, c);
    case OnDatagram(src, d, bodies, now) =>
    case OnMessage(d, env) => QuietMessage(st, d, env, c);
    case OnDrained(d, now) =>
    case OnReply(fd, payload, now) =>
    case OnTick(now, idleMs, order) => QuietSweep(st, now, idleMs, order, c);
    case OnTeardown => QuietTeardown(st, c);
  }

  lemma QuietRegister(st: State, src: Addr, c: nat)
    requires Inv(st) && RoomForMore(st) && c in st.sessions
    ensures c in Register(st, src).sessions && Register(st, src).sessions[c] == st.sessions[c]
  {
    hide Inv, Probe, Around, Keyed;
    NumberInRange(st);
    NewConvIsFree(st);
  }

  lemma QuietTeardown(st: State, c: nat)
    requires Inv(st) && c in st.sessions && !st.sessions[c].dying
    ensures c in Flush(st).sessions && Flush(st).sessions[c] == st.sessions[c]
  {
    hide Inv, Flush;
    TeardownReady(st);
    FlushInv(st);
  }

  lemma QuietMessage(st: State, d: nat, env: Env, c: nat)
    requires c in st.sessions && d in st.sessions && d != c && st.sessions[d].inbox != []
    ensures c in Receive(st, d, env).0.sessions && Receive(st, d, env).0.sessions[c] == st.sessions[c]
  {
    hide Parse;
  }

  lemma QuietSweep(st: State, now: nat, idleMs: nat, order: seq<nat>, c: nat)
    requires Enumerates(st, now, idleMs, order) && c in st.sessions && !st.sessions[c].dying
    ensures c in Sweep(st, now, idleMs, order).sessions
    ensures Sweep(st, now, idleMs, order).sessions[c].(dying := false) == st.sessions[c]
  {
    MarkableVictims(st, now, idleMs, order);
    hide MarkAll, Markable, Enumerates;
    MarkAllEffect(Swept(st, now), order, c);
  }

  /** Sweep calls come at most `delta` apart, the last one before the run at `prev`, all with
      the same idle time, and nothing happens later than `delta` after a call.  Session `c`
      has no traffic until it is marked. */
  ghost predicate Punctual(st: State, steps: seq<Step>, c: nat, prev: nat, delta: nat, idleMs: nat)
    requires IsRun(st, steps)
    decreases |steps|
  {
    steps != [] && c in st.sessions && !st.sessions[c].dying ==>
      var st1 := Apply(st, steps[0]);
      && !Touches(st, steps[0], c) && st1.clock <= prev + delta && st1.clock < U64
      && (steps[0].OnTick? ==> steps[0].idleMs == idleMs)
      && Punctual(st1, steps[1..], c, if steps[0].OnTick? then st1.clock else prev, delta, idleMs)
  }

  /** A session without traffic is marked less than 1000 ms plus the distance of the sweep
      calls after the later of `from` and the end of its idle time.  `from` is the time of the
      latest sweep call, or of the registration when the tick was not armed before it. */
  lemma {:induction false} MarkedInTime(
      st: State, steps: seq<Step>, c: nat, prev: nat, delta: nat, idleMs: nat, limit: nat)
    returns (k: nat)
    requires Inv(st) && IsRun(st, steps) && c in st.sessions && !st.sessions[c].dying
    requires Punctual(st, steps, c, prev, delta, idleMs)
    requires st.lastSweep <= limit && prev < limit + SWEEP_MS && st.sessions[c].lastActive + idleMs <= limit
    requires st.clock <= prev + delta
    requires After(st, steps).clock >= limit + SWEEP_MS + delta
    ensures k <= |steps| && IsRun(st, steps[..k])
    ensures c in After(st, steps[..k]).sessions && After(st, steps[..k]).sessions[c].dying
    ensures After(st, steps[..k]).clock < limit + SWEEP_MS + delta
    decreases |steps|
  {
    hide Inv, Enabled, Apply;
    var step := steps[0];
    var st1 := Apply(st, step);
    StepInv(st, step);
    StepClock(st, step);
    QuietStep(st, step, c);
    if st1.sessions[c].dying {
      k := 1;
      OneStep(st, steps);
    } else {
      if step.OnTick? { SpareMeansEarly(st, step, c, limit); }
      k := MarkedInTime(st1, steps[1..], c, if step.OnTick? then st1.clock else prev, delta, idleMs, limit);
      k := k + 1;
      assert steps[..k][1..] == steps[1..][..k - 1];
    }
  }

  lemma OneStep(st: State, steps: seq<Step>)
    requires IsRun(st, steps) && steps != []
    ensures IsRun(st, steps[..1]) && After(st, steps[..1]) == Apply(st, steps[0])
  {
    assert steps[..1][1..] == [];
  }

  /** A sweep call that spares an idle session came before the next sweep was due. */
  lemma SpareMeansEarly(st: State, step: Step, c: nat, limit: nat)
    requires Inv(st) && Enabled(st, step) && step.OnTick? && c in st.sessions && !st.sessions[c].dying
    requires st.lastSweep <= limit && st.sessions[c].lastActive + step.idleMs <= limit && step.now < U64
    requires c in Apply(st, step).sessions && !Apply(st, step).sessions[c].dying
    ensures step.now < limit + SWEEP_MS && Apply(st, step).lastSweep <= limit
  {
    SweepMarksExactly(st, step.now, step.idleMs, step.order, c);
    hide Inv;
    if Elapsed(step.now, st.lastSweep) >= SWEEP_MS {
      MarkAllClock(Swept(st, step.now), step.order);
      NotFromTheFuture(st, c);
      ElapsedPlain(step.now, st.lastSweep);
    }
  }

  /** A session that has just been registered counts as idle since time 0: the next sweep that
      is due reaps it if and only if the clock itself has passed the idle time. */
  lemma FreshSessionSpared(st: State, src: Addr, now: nat, idleMs: nat, order: seq<nat>)
    requires Inv(st) && RoomForMore(st) && (forall c :: !Waits(st, c, src)) && st.clock <= now < U64
    requires Enumerates(Register(st, src), now, idleMs, order)
    ensures var st', c := Sweep(Register(st, src), now, idleMs, order), NewConv(st);
            c in st'.sessions && (st'.sessions[c].dying <==> now >= st.lastSweep + SWEEP_MS && now > idleMs)
  {
    RegisterInv(st, src);
    hide Inv, Probe, Around, Enumerates, Sweep;
    SweepMarksExactly(Register(st, src), now, idleMs, order, NewConv(st));
  }
}
