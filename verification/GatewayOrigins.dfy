/** Where relayed payload comes from: every event of a trace is traced back to the step of the run
    that caused it, and every message in a queue to the datagram that completed it. */
module GatewayOrigins {
  import opened TunnelProtocol
  import opened Circle
  import opened GatewayTrace
  import opened GatewayModel
  import opened GatewayRuns

  // ------------------------------------------------------------------ prefixes of a run

  lemma {:induction false} RunPrefix(st: State, steps: seq<Step>, n: nat)
    requires IsRun(st, steps) && n <= |steps|
    ensures IsRun(st, steps[..n])
    decreases n
  {
    hide Enabled, Apply;
    if n > 0 {
      assert steps[..n][1..] == steps[1..][..n - 1];
      RunPrefix(Apply(st, steps[0]), steps[1..], n - 1);
    }
  }

  /** The state before step `n` of a run. */
  ghost function At(st: State, steps: seq<Step>, n: nat): State
    requires IsRun(st, steps) && n <= |steps|
  {
    RunPrefix(st, steps, n);
    After(st, steps[..n])
  }

  lemma {:induction false} AtNext(st: State, steps: seq<Step>, n: nat)
    requires IsRun(st, steps) && n < |steps|
    ensures Enabled(At(st, steps, n), steps[n]) && At(st, steps, n + 1) == Apply(At(st, steps, n), steps[n])
    decreases n
  {
    hide Enabled, Apply;
    var st1 := Apply(st, steps[0]);
    if n == 0 {
      assert steps[..0] == [];
      OneStep(st, steps);
    } else {
      assert steps[..n][1..] == steps[1..][..n - 1] && steps[..n + 1][1..] == steps[1..][..n];
      AtNext(st1, steps[1..], n - 1);
    }
  }

  lemma AtEnds(st: State, steps: seq<Step>)
    requires IsRun(st, steps)
    ensures At(st, steps, 0) == st && At(st, steps, |steps|) == After(st, steps)
  {
    assert steps[..0] == [] && steps[..|steps|] == steps;
  }

  lemma AtInv(st: State, steps: seq<Step>, n: nat)
    requires Inv(st) && IsRun(st, steps) && n <= |steps|
    ensures Inv(At(st, steps, n))
  {
    RunPrefix(st, steps, n);
    RunInv(st, steps[..n]);
  }

  // ------------------------------------------------------------------ what a step adds to the trace

  /** The trace of `st'` continues that of `st`. */
  ghost predicate Continues(st: State, st': State) {
    st.log <= st'.log
  }

  /** An event that concerns the life of session `c`: its number given out or given back. */
  predicate Ends(e: Event, c: nat) {
    (e.Issued? || e.Dropped?) && e.conv == c
  }

  /** Nothing of the sort happens between places `a` and `b`. */
  ghost predicate Lasting(log: seq<Event>, a: nat, b: nat, c: nat) {
    forall x :: a <= x < b <= |log| ==> !Ends(log[x], c)
  }

  lemma {:induction false} MarkAllTrace(st: State, order: seq<nat>)
    ensures Continues(st, MarkAll(st, order))
    ensures forall x :: |st.log| <= x < |MarkAll(st, order).log| ==> MarkAll(st, order).log[x].Marked?
    decreases |order|
  {
    if order != [] {
      MarkAllTrace(if order[0] in st.sessions then Mark(st, order[0]) else st, order[1..]);
    }
  }

  lemma {:induction false} FlushTrace(st: State)
    ensures Continues(st, Flush(st))
    ensures forall x :: |st.log| <= x < |Flush(st).log| ==>
              Flush(st).log[x].Dropped? && Flush(st).log[x].conv in st.toErase
    decreases |st.toErase|
  {
    if st.toErase != [] {
      FlushTrace(DropFirst(st));
    }
  }

  /** Only a message of a session sends to a target, and then what its first queued message
      carries; only a reply sends to an endpoint, and then what arrived. */
  ghost predicate Emits(st: State, step: Step, e: Event) {
    && (e.ToTarget? ==>
          && step.OnMessage? && step.conv == e.conv && e.conv in st.sessions && st.sessions[e.conv].inbox != []
          && Parse(st.sessions[e.conv].inbox[0].body) == Packet(Data(e.payload)))
    && (e.ToClient? ==> step.OnReply? && step.fd == e.fd && step.payload == e.payload)
  }

  /** The events a step adds, what they say, and that a session that stays does not end. */
  ghost predicate Adds(st: State, step: Step, st': State) {
    && Continues(st, st')
    && (forall x :: |st.log| <= x < |st'.log| ==> Emits(st, step, st'.log[x]))
    && (forall x :: |st.log| <= x < |st'.log| && (st'.log[x].ToTarget? || st'.log[x].ToClient?) ==> x == |st.log|)
    && (forall c :: c in st.sessions && c in st'.sessions ==> Lasting(st'.log, |st.log|, |st'.log|, c))
  }

  /** At most one event, which is no end of a session. */
  lemma AddsOne(st: State, step: Step, st': State)
    requires st'.log == st.log || exists e :: st'.log == st.log + [e] && !e.Issued? && !e.Dropped? && Emits(st, step, e)
    ensures Adds(st, step, st')
  {
  }

  /** A message leaves at most one event, and sends to a target only what it carries. */
  lemma HandledEvent(st: State, c: nat, parsed: Parsed, from: Addr, env: Env) returns (e: Event)
    requires c in st.sessions
    ensures var st' := HandleParsed(st, c, parsed, from, env).0;
            st'.log == st.log || (st'.log == st.log + [e] && !e.Issued? && !e.Dropped? && !e.ToClient?)
    ensures e.ToTarget? ==> e.conv == c && parsed == Packet(Data(e.payload))
  {
    var st' := HandleParsed(st, c, parsed, from, env).0;
    e := if |st'.log| > |st.log| then st'.log[|st.log|] else Marked(c);
  }

  lemma AddsMessage(st: State, step: Step)
    requires step.OnMessage? && Enabled(st, step)
    ensures Adds(st, step, Apply(st, step))
  {
    hide Parse, EnvAllowed, Adds, HandleParsed;
    var c, s := step.conv, st.sessions[step.conv];
    var st1 := Amend(st, c, s.(inbox := s.inbox[1..]));
    var e := HandledEvent(st1, c, Parse(s.inbox[0].body), s.inbox[0].from, step.env);
    assert Emits(st, step, e) || e.ToClient?;
    AddsOne(st, step, Apply(st, step));
  }

  lemma AddsRegister(st: State, step: Step)
    requires Inv(st) && step.OnRegister? && Enabled(st, step)
    ensures Adds(st, step, Apply(st, step))
  {
    hide Inv, FirstFree, Probe;
    NextFree(st);
  }

  lemma NextFree(st: State)
    requires Inv(st) && RoomForMore(st)
    ensures NewConv(st) !in st.sessions
  {
    assert Ticketed(st);
    NewConvIsFree(st);
  }

  lemma AddsSweep(st: State, step: Step)
    requires step.OnTick? && Enabled(st, step)
    ensures Adds(st, step, Apply(st, step))
  {
    hide Enumerates, MarkAll;
    MarkAllTrace(Swept(st, step.now), step.order);
  }

  lemma AddsTeardown(st: State, step: Step)
    requires Inv(st) && step.OnTeardown? && Enabled(st, step)
    ensures Adds(st, step, Apply(st, step))
  {
    hide Inv, Flush;
    FlushTrace(st);
    TeardownSpares(st);
  }

  lemma TeardownSpares(st: State)
    requires Inv(st)
    ensures forall c :: c in Flush(st).sessions ==> c !in st.toErase
  {
    TeardownReady(st);
    FlushInv(st);
    assert Condemned(st);
  }

  lemma StepAdds(st: State, step: Step)
    requires Inv(st) && Enabled(st, step)
    ensures Adds(st, step, Apply(st, step))
  {
    hide Inv, Adds, Receive, Sweep, Flush, Register, EnvAllowed, Enumerates;
    match step
    case OnRegister(_) => AddsRegister(st, step);
    case OnDatagram(_, _, _, _) => AddsOne(st, step, Apply(st, step));
    case OnMessage(_, _) => AddsMessage(st, step);
    case OnDrained(_, _) => AddsOne(st, step, Apply(st, step));
    case OnReply(_, _, _) => AddsOne(st, step, Apply(st, step));
    case OnTick(_, _, _) => AddsSweep(st, step);
    case OnTeardown => AddsTeardown(st, step);
  }

  // ------------------------------------------------------------------ where a queued message comes from

  /** The step is a datagram of `client` for session `c` that completes a message `body`. */
  ghost predicate Carries(step: Step, client: Addr, c: nat, body: Bytes) {
    step.OnDatagram? && step.src == client && step.conv == c && body in step.bodies
  }

  /** The message at place `i` of a queue after a step was at place `r` before it, in the queue of
      the same session of the same endpoint; or `r` is -1 and the step is a datagram of the owner
      that completed it. */
  ghost predicate Moved(st: State, step: Step, st': State, c: nat, i: nat, r: int) {
    && c in st'.sessions && i < |st'.sessions[c].inbox|
    && c in st.sessions && st.sessions[c].client == st'.sessions[c].client
    && (r >= 0 ==> r < |st.sessions[c].inbox| && st.sessions[c].inbox[r].body == st'.sessions[c].inbox[i].body)
    && (r < 0 ==> !st.sessions[c].dying && Carries(step, st.sessions[c].client, c, st'.sessions[c].inbox[i].body))
  }

  lemma MovedRegister(st: State, step: Step, c: nat, i: nat)
    requires Inv(st) && step.OnRegister? && Enabled(st, step)
    requires c in Apply(st, step).sessions && i < |Apply(st, step).sessions[c].inbox|
    ensures Moved(st, step, Apply(st, step), c, i, i)
  {
    hide Inv, FirstFree, Probe;
    NextFree(st);
  }

  lemma MovedDatagram(st: State, step: Step, c: nat, i: nat) returns (r: int)
    requires step.OnDatagram? && Enabled(st, step)
    requires c in Apply(st, step).sessions && i < |Apply(st, step).sessions[c].inbox|
    ensures Moved(st, step, Apply(st, step), c, i, r)
  {
    r := i;
    if c == step.conv && Owns(st, step.src, c) && !st.sessions[c].dying && i >= |st.sessions[c].inbox| {
      r := -1;
      assert Apply(st, step).sessions[c].inbox[i].body == step.bodies[i - |st.sessions[c].inbox|];
    }
  }

  lemma MovedMessage(st: State, step: Step, c: nat, i: nat) returns (r: int)
    requires step.OnMessage? && Enabled(st, step)
    requires c in Apply(st, step).sessions && i < |Apply(st, step).sessions[c].inbox|
    ensures Moved(st, step, Apply(st, step), c, i, r)
  {
    hide Handle, EnvAllowed;
    var d := step.conv;
    var s := st.sessions[d];
    var st1 := Amend(st, d, s.(inbox := s.inbox[1..]));
    HandleKeeps(st1, d, s.inbox[0], step.env);
    assert st1.sessions.Keys == st.sessions.Keys;
    if c == d {
      r := i + 1;
    } else {
      r := i;
      QuietMessage(st, d, step.env, c);
    }
  }

  lemma MovedSweep(st: State, step: Step, c: nat, i: nat)
    requires step.OnTick? && Enabled(st, step)
    requires c in Apply(st, step).sessions && i < |Apply(st, step).sessions[c].inbox|
    ensures Moved(st, step, Apply(st, step), c, i, i)
  {
    hide MarkAll, Markable, Enumerates;
    MarkableVictims(st, step.now, step.idleMs, step.order);
    MarkAllKeys(Swept(st, step.now), step.order);
    if c in st.sessions { MarkAllEffect(Swept(st, step.now), step.order, c); }
  }

  lemma MovedTeardown(st: State, step: Step, c: nat, i: nat)
    requires Inv(st) && step.OnTeardown? && Enabled(st, step)
    requires c in Apply(st, step).sessions && i < |Apply(st, step).sessions[c].inbox|
    ensures Moved(st, step, Apply(st, step), c, i, i)
  {
    hide Inv, Flush;
    TeardownReady(st);
    FlushInv(st);
  }

  lemma StepMoves(st: State, step: Step, c: nat, i: nat) returns (r: int)
    requires Inv(st) && Enabled(st, step)
    requires c in Apply(st, step).sessions && i < |Apply(st, step).sessions[c].inbox|
    ensures Moved(st, step, Apply(st, step), c, i, r)
  {
    hide Inv, Receive, Sweep, Flush, Register, EnvAllowed, Enumerates;
    r := i;
    match step
    case OnRegister(_) => MovedRegister(st, step, c, i);
    case OnDatagram(_, _, _, _) => r := MovedDatagram(st, step, c, i);
    case OnMessage(_, _) => r := MovedMessage(st, step, c, i);
    case OnDrained(_, _) =>
    case OnReply(_, _, _) =>
    case OnTick(_, _, _) => MovedSweep(st, step, c, i);
    case OnTeardown => MovedTeardown(st, step, c, i);
  }

  /** Step `j` is an accepted datagram of `client` that completed `body`, and the session has
      lasted from then until before step `n`. */
  ghost predicate Origin(st: State, steps: seq<Step>, n: nat, client: Addr, c: nat, body: Bytes, j: nat)
    requires IsRun(st, steps) && n <= |steps|
  {
    && j < n && Carries(steps[j], client, c, body)
    && Owns(At(st, steps, j), client, c) && !At(st, steps, j).sessions[c].dying
    && Continues(At(st, steps, j), At(st, steps, n))
    && Lasting(At(st, steps, n).log, |At(st, steps, j).log|, |At(st, steps, n).log|, c)
  }

  lemma LastingOn(log: seq<Event>, log': seq<Event>, a: nat, c: nat)
    requires log <= log' && Lasting(log, a, |log|, c) && Lasting(log', |log|, |log'|, c) && a <= |log|
    ensures Lasting(log', a, |log'|, c)
  {
  }

  lemma {:induction false} OriginOfMessage(st: State, steps: seq<Step>, n: nat, c: nat, i: nat) returns (j: nat)
    requires Init(st) && IsRun(st, steps) && n <= |steps|
    requires c in At(st, steps, n).sessions && i < |At(st, steps, n).sessions[c].inbox|
    ensures var s := At(st, steps, n).sessions[c]; Origin(st, steps, n, s.client, c, s.inbox[i].body, j)
    decreases n
  {
    hide IsRun, After, Enabled, Apply, Inv, Lasting;
    AtEnds(st, steps);
    InitInv(st);
    var p := n - 1;
    AtNext(st, steps, p);
    AtInv(st, steps, p);
    var st0, st1 := At(st, steps, p), At(st, steps, n);
    StepAdds(st0, steps[p]);
    var r := StepMoves(st0, steps[p], c, i);
    if r < 0 {
      j := p;
    } else {
      j := OriginOfMessage(st, steps, p, c, r);
      LastingOn(st0.log, st1.log, |At(st, steps, j).log|, c);
    }
  }

  // ------------------------------------------------------------------ where an event comes from

  /** The step of a run that put event `i` into the trace. */
  lemma {:induction false} CausedBy(st: State, steps: seq<Step>, n: nat, i: nat) returns (m: nat)
    requires Inv(st) && IsRun(st, steps) && n <= |steps| && |st.log| <= i < |At(st, steps, n).log|
    ensures m < n && |At(st, steps, m).log| <= i < |At(st, steps, m + 1).log|
    ensures At(st, steps, m + 1).log <= At(st, steps, n).log
    ensures Adds(At(st, steps, m), steps[m], At(st, steps, m + 1))
    decreases n
  {
    hide IsRun, After, Enabled, Apply, Inv;
    AtEnds(st, steps);
    var p := n - 1;
    AtNext(st, steps, p);
    AtInv(st, steps, p);
    StepAdds(At(st, steps, p), steps[p]);
    if i < |At(st, steps, p).log| {
      m := CausedBy(st, steps, p, i);
    } else {
      m := p;
    }
  }

  /** The trace tells the sessions as they are. */
  lemma TableTold(st: State, c: nat)
    requires Inv(st) && c in st.sessions
    ensures Lawful(st.log) && c in Replay(st.log) && Replay(st.log)[c].client == st.sessions[c].client
  {
    assert Traced(st);
  }

  /** Before event `i`, which a message or a reply caused, the trace was that of the state before
      the step. */
  lemma TraceBefore(st: State, steps: seq<Step>, i: nat) returns (m: nat)
    requires Init(st) && IsRun(st, steps) && i < |After(st, steps).log|
    requires After(st, steps).log[i].ToTarget? || After(st, steps).log[i].ToClient?
    ensures var log := After(st, steps).log;
            && m < |steps| && At(st, steps, m).log == log[..i] && Emits(At(st, steps, m), steps[m], log[i])
  {
    hide IsRun, After, Inv, Emits;
    AtEnds(st, steps);
    InitInv(st);
    m := CausedBy(st, steps, |steps|, i);
    var log, log1 := After(st, steps).log, At(st, steps, m + 1).log;
    assert log1[i] == log[i] && |At(st, steps, m).log| == i;
    assert At(st, steps, m).log == log1[..i] == log[..i];
  }

  /** Over every run, payload that goes out on a target descriptor was put into the tunnel by the
      endpoint the session was issued to: step `j` is an accepted datagram of that endpoint for
      that session, its message `k` is the payload, and it came after the number was given out
      and before step `m` sent the payload.  It goes to the address fixed when the descriptor was
      opened, and since then the session was neither marked nor dropped nor the descriptor given
      to another. */
  lemma RunToTarget(st: State, steps: seq<Step>, i: nat) returns (a: nat, b: nat, j: nat, k: nat, m: nat)
    requires Init(st) && IsRun(st, steps) && i < |After(st, steps).log| && After(st, steps).log[i].ToTarget?
    ensures var log := After(st, steps).log;
            && a < b < i && log[a].Issued? && log[a].conv == log[i].conv
            && log[b] == Opened(log[i].conv, log[i].fd, log[i].target)
            && Undisturbed(log, a, i, log[i].conv) && NotMarked(log, a, i, log[i].conv)
            && Held(log, b, i, log[i].fd)
    ensures var log := After(st, steps).log;
            && j < m < |steps| && At(st, steps, m).log == log[..i] && a < |At(st, steps, j).log| <= i
            && steps[j].OnDatagram? && steps[j].src == log[a].client && steps[j].conv == log[i].conv
            && k < |steps[j].bodies| && Parse(steps[j].bodies[k]) == Packet(Data(log[i].payload))
            && steps[m].OnMessage? && steps[m].conv == log[i].conv
  {
    hide IsRun, After, Inv, Lawful, Replay, Undisturbed, NotMarked, Held, Parse;
    var log := After(st, steps).log;
    var c := log[i].conv;
    RunTrace(st, steps);
    m := TraceBefore(st, steps, i);
    a, b := RelayedToTarget(log, i);
    var s := At(st, steps, m).sessions[c];
    j := OriginOfMessage(st, steps, m, c, 0);
    k :| 0 <= k < |steps[j].bodies| && steps[j].bodies[k] == s.inbox[0].body;
    InitInv(st);
    AtInv(st, steps, m);
    TableTold(At(st, steps, m), c);
    SenderTold(log, i);
    assert Ends(log[a], c) && log[a] == log[..i][a];
  }

  /** The endpoint named with a payload is the one the trace has for the session. */
  lemma SenderTold(log: seq<Event>, i: nat)
    requires Lawful(log) && i < |log| && log[i].ToTarget?
    ensures log[i].conv in Replay(log[..i]) && Replay(log[..i])[log[i].conv].client == log[i].from
  {
    assert Allowed(Replay(log[..i]), log[i]);
  }

  /** And what goes back to an endpoint arrived on the descriptor of the session that was issued
      to it: step `m` is that arrival. */
  lemma RunToClient(st: State, steps: seq<Step>, i: nat) returns (a: nat, b: nat, m: nat)
    requires Init(st) && IsRun(st, steps) && i < |After(st, steps).log| && After(st, steps).log[i].ToClient?
    ensures var log := After(st, steps).log;
            && a < b < i && log[a] == Issued(log[i].conv, log[i].client)
            && log[b].Opened? && log[b].conv == log[i].conv && log[b].fd == log[i].fd
            && Undisturbed(log, a, i, log[i].conv) && NotMarked(log, a, i, log[i].conv)
            && Held(log, b, i, log[i].fd)
    ensures var log := After(st, steps).log;
            && m < |steps| && At(st, steps, m).log == log[..i]
            && steps[m].OnReply? && steps[m].fd == log[i].fd && steps[m].payload == log[i].payload
  {
    hide IsRun, After, Inv, Lawful, Replay, Undisturbed, NotMarked, Held, Parse;
    RunTrace(st, steps);
    m := TraceBefore(st, steps, i);
    a, b := RelayedToClient(After(st, steps).log, i);
  }
}
