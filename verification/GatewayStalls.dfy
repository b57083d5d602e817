/** A message that does not fit a block stays at the head of its session's queue, and nothing the
    session receives afterwards is ever relayed. */
module GatewayStalls {
  import opened GatewayTrace
  import opened GatewayModel
  import opened GatewayRuns
  import opened GatewayOrigins
  import opened GatewayDispatch

  ghost predicate Stalled(st: State, c: nat) {
    c in st.sessions && st.sessions[c].inbox != [] && |st.sessions[c].inbox[0].body| > BLOCK
  }

  /** It comes about whenever draining a queue ends with the answer -3. */
  lemma {:induction false} DrainStalls(st: State, c: nat, steps: seq<Step>)
    requires Drains(st, c, steps, -3)
    ensures IsRun(st, steps) && Stalled(After(st, steps), c)
    decreases |steps|
  {
    hide Receive, EnvAllowed;
    if steps != [] {
      DrainStalls(Apply(st, steps[0]), c, steps[1..]);
    }
  }

  lemma StalledRest(st: State, step: Step, c: nat)
    requires Inv(st) && Stalled(st, c) && (step.OnDatagram? || step.OnDrained? || step.OnReply?) && Enabled(st, step)
    ensures Stalled(Apply(st, step), c)
  {
    hide Inv;
  }

  lemma StalledSweep(st: State, now: nat, idleMs: nat, order: seq<nat>, c: nat)
    requires Stalled(st, c) && Enumerates(st, now, idleMs, order)
    ensures Stalled(Sweep(st, now, idleMs, order), c)
  {
    hide MarkAll, Markable, Enumerates;
    MarkableVictims(st, now, idleMs, order);
    MarkAllEffect(Swept(st, now), order, c);
  }

  lemma StalledTeardown(st: State, c: nat)
    requires Inv(st) && Stalled(st, c) && c in Flush(st).sessions
    ensures Stalled(Flush(st), c)
  {
    hide Inv, Flush;
    TeardownReady(st);
    FlushInv(st);
  }

  /** Every event leaves a stalled session stalled, as long as it is there, and handles none of its
      messages. */
  lemma StepStalled(st: State, step: Step, c: nat)
    requires Inv(st) && Enabled(st, step) && Stalled(st, c)
    ensures !(step.OnMessage? && step.conv == c)
    ensures c in Apply(st, step).sessions ==> Stalled(Apply(st, step), c)
  {
    hide Inv, EnvAllowed, Enumerates, Receive, Sweep, Flush, Register;
    match step
    case OnRegister(src) => QuietRegister(st, src, c);
    case OnDatagram(_, _, _, _) => StalledRest(st, step, c);
    case OnMessage(d, env) => QuietMessage(st, d, env, c);
    case OnDrained(_, _) => StalledRest(st, step, c);
    case OnReply(_, _, _) => StalledRest(st, step, c);
    case OnTick(now, idleMs, order) => StalledSweep(st, now, idleMs, order, c);
    case OnTeardown => if c in Flush(st).sessions { StalledTeardown(st, c); }
  }

  /** A session that is gone from the table was dropped. */
  lemma {:induction false} DroppedBetween(log: seq<Event>, log': seq<Event>, c: nat) returns (y: nat)
    requires log <= log' && c in Replay(log) && c !in Replay(log')
    ensures |log| <= y < |log'| && log'[y].Dropped? && log'[y].conv == c
    decreases |log'|
  {
    var n := |log'| - 1;
    assert log == log'[..|log|] && log'[..|log'|] == log';
    var init := log'[..n];
    if c in Replay(init) {
      y := n;
    } else {
      y := DroppedBetween(log, init, c);
    }
  }

  lemma Known(st: State, c: nat)
    requires Inv(st)
    ensures c in Replay(st.log) <==> c in st.sessions
  {
    assert Traced(st);
  }

  lemma {:induction false} RunContinues(st: State, steps: seq<Step>)
    requires Inv(st) && IsRun(st, steps)
    ensures Continues(st, After(st, steps))
    decreases |steps|
  {
    hide Inv, Enabled, Apply, Emits, Lasting;
    if steps != [] {
      var st1 := Apply(st, steps[0]);
      StepAdds(st, steps[0]);
      StepInv(st, steps[0]);
      RunContinues(st1, steps[1..]);
    }
  }

  /** Over every run from a state where session `c` is stalled, nothing of it goes to a target
      before it is torn down: before any such event `i` there is its teardown `y`. */
  lemma {:induction false} StalledForGood(st: State, steps: seq<Step>, c: nat, i: nat) returns (y: nat)
    requires Inv(st) && IsRun(st, steps) && Stalled(st, c)
    requires |st.log| <= i < |After(st, steps).log|
    requires After(st, steps).log[i].ToTarget? && After(st, steps).log[i].conv == c
    ensures |st.log| <= y < i && After(st, steps).log[y].Dropped? && After(st, steps).log[y].conv == c
    decreases |steps|
  {
    hide Inv, Enabled, Apply, Lasting, Replay;
    var st1 := Apply(st, steps[0]);
    StepAdds(st, steps[0]);
    StepInv(st, steps[0]);
    StepStalled(st, steps[0], c);
    RunContinues(st1, steps[1..]);
    assert i >= |st1.log|;
    if c in st1.sessions {
      y := StalledForGood(st1, steps[1..], c, i);
    } else {
      Known(st, c);
      Known(st1, c);
      y := DroppedBetween(st.log, st1.log, c);
    }
  }
}
