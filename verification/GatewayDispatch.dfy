/** What the handlers and the event loop do, as lists of steps of the session machine: which steps
    a datagram, a reply, a ready descriptor and a batch amount to. */
module GatewayDispatch {
  import opened TunnelProtocol
  import opened GatewayTrace
  import opened GatewayModel
  import opened GatewayRuns

  const KCP_OVERHEAD: nat := 24

  /** A datagram waiting in the tunnel socket, with the messages it completes if it is handed to
      KCP. */
  datatype Datagram = Datagram(src: Addr, data: Bytes, completes: seq<Bytes>)

  /** The conversation number of a KCP segment, least significant byte first. */
  function GetConv(pkt: Bytes): (c: nat)
    requires |pkt| >= 4
    ensures c < CONVS
  {
    pkt[0] as int + 256 * (pkt[1] as int + 256 * (pkt[2] as int + 256 * pkt[3] as int))
  }

  // ------------------------------------------------------------------ runs piece by piece

  /** The steps lead from `st` to `st'` without tearing anything down. */
  ghost predicate Leads(st: State, steps: seq<Step>, st': State) {
    IsRun(st, steps) && IsBatch(steps) && After(st, steps) == st'
  }

  lemma LeadsNowhere(st: State)
    ensures Leads(st, [], st)
  {
  }

  lemma {:induction false} RunJoin(st: State, a: seq<Step>, b: seq<Step>)
    requires IsRun(st, a) && IsRun(After(st, a), b)
    ensures IsRun(st, a + b) && After(st, a + b) == After(After(st, a), b)
    decreases |a|
  {
    hide Enabled, Apply;
    if a == [] {
      assert a + b == b;
    } else {
      assert (a + b)[1..] == a[1..] + b;
      RunJoin(Apply(st, a[0]), a[1..], b);
    }
  }

  lemma LeadsOn(st: State, a: seq<Step>, st1: State, b: seq<Step>, st2: State)
    requires Leads(st, a, st1) && Leads(st1, b, st2)
    ensures Leads(st, a + b, st2)
  {
    RunJoin(st, a, b);
  }

  lemma LeadsByOne(st: State, step: Step)
    requires Enabled(st, step) && !step.OnTeardown?
    ensures Leads(st, [step], Apply(st, step))
  {
    hide Enabled, Apply;
    var st' := Apply(st, step);
    assert [step][1..] == [] && IsRun(st', []) && After(st', []) == st';
  }

  /** Is there a session for the datagrams of `src` with number `c`? */
  predicate Welcome(st: State, src: Addr, c: nat) {
    Owns(st, src, c) && !st.sessions[c].dying
  }

  predicate Fed(step: Step, src: Addr, c: nat, bodies: seq<Bytes>) {
    step.OnDatagram? && step.src == src && step.conv == c && step.bodies == bodies
  }

  /** What of a reply goes into a packet. */
  function Cut(reply: Bytes): (r: Bytes)
    ensures r <= reply && |r| == if |reply| <= 2045 then |reply| else 2045
  {
    if |reply| > BLOCK - DATA_HEAD_LEN then reply[..BLOCK - DATA_HEAD_LEN] else reply
  }

  predicate Replied(step: Step, fd: int, reply: Bytes) {
    step.OnReply? && step.fd == fd && step.payload == Cut(reply)
  }

  // ------------------------------------------------------------------ draining a queue

  /** The messages of session `c` are handled one after the other.  `got` is the last answer of
      `ikcp_recv`: -1 if nothing is left, -3 if the next message does not fit a block and stays in
      the queue, 0 after an empty message, and the length of the message whose handler gave the
      session up. */
  ghost predicate Drains(st: State, c: nat, steps: seq<Step>, got: int)
    decreases |steps|
  {
    && c in st.sessions
    && var inbox := st.sessions[c].inbox;
       if inbox == [] then steps == [] && got == -1
       else if |inbox[0].body| > BLOCK then steps == [] && got == -3
       else
         && steps != [] && steps[0].OnMessage? && steps[0].conv == c && Enabled(st, steps[0])
         && if inbox[0].body == [] then |steps| == 1 && got == 0
            else if Receive(st, c, steps[0].env).1 then |steps| == 1 && got == |inbox[0].body|
            else Drains(Apply(st, steps[0]), c, steps[1..], got)
  }

  /** A message of session `c` after which the loop goes on. */
  ghost predicate GoesOn(st: State, c: nat, step: Step) {
    && step.OnMessage? && step.conv == c && Enabled(st, step)
    && st.sessions[c].inbox[0].body != [] && !Receive(st, c, step.env).1
  }

  /** So far the loop has gone on after every message, and has come to `st'`. */
  ghost predicate Ongoing(st: State, c: nat, steps: seq<Step>, st': State)
    decreases |steps|
  {
    if steps == [] then st == st'
    else GoesOn(st, c, steps[0]) && Ongoing(Apply(st, steps[0]), c, steps[1..], st')
  }

  lemma OngoingNone(st: State, c: nat)
    ensures Ongoing(st, c, [], st)
  {
  }

  lemma {:induction false} OngoingOn(st: State, c: nat, steps: seq<Step>, st1: State, step: Step)
    requires Ongoing(st, c, steps, st1) && GoesOn(st1, c, step)
    ensures Ongoing(st, c, steps + [step], Apply(st1, step))
    decreases |steps|
  {
    hide Enabled, Apply, Receive;
    if steps == [] {
      assert [] + [step] == [step] && [step][1..] == [];
    } else {
      assert (steps + [step])[1..] == steps[1..] + [step];
      OngoingOn(Apply(st, steps[0]), c, steps[1..], st1, step);
    }
  }

  lemma {:induction false} OngoingThen(st: State, c: nat, a: seq<Step>, st1: State, b: seq<Step>, got: int)
    requires Ongoing(st, c, a, st1) && Drains(st1, c, b, got)
    ensures Drains(st, c, a + b, got)
    decreases |a|
  {
    hide Apply, Receive, EnvAllowed;
    if a == [] {
      assert [] + b == b;
    } else {
      assert (a + b)[1..] == a[1..] + b && (a + b)[0] == a[0];
      OngoingThen(Apply(st, a[0]), c, a[1..], st1, b, got);
    }
  }

  /** The last message: nothing more is read after it. */
  lemma DrainsLast(st: State, c: nat, step: Step, got: int)
    requires step.OnMessage? && step.conv == c && Enabled(st, step)
    requires got == |st.sessions[c].inbox[0].body| && (got == 0 || Receive(st, c, step.env).1)
    ensures Drains(st, c, [step], got)
  {
  }

  lemma DrainsNone(st: State, c: nat, got: int)
    requires c in st.sessions
    requires if st.sessions[c].inbox == [] then got == -1 else |st.sessions[c].inbox[0].body| > BLOCK && got == -3
    ensures Drains(st, c, [], got)
  {
  }

  // ------------------------------------------------------------------ a datagram

  /** A datagram for a session: KCP is fed, the queue is drained, and unless the session was given
      up the time is noted once more. */
  ghost predicate DeliveredAs(st: State, src: Addr, c: nat, bodies: seq<Bytes>, steps: seq<Step>, drained: seq<Step>,
                              got: int)
  {
    && steps != [] && Fed(steps[0], src, c, bodies) && Enabled(st, steps[0])
    && Drains(Apply(st, steps[0]), c, drained, got)
    && if got > 0 then steps == [steps[0]] + drained
       else exists now :: steps == [steps[0]] + drained + [OnDrained(c, now)]
  }

  ghost predicate Delivered(st: State, src: Addr, c: nat, bodies: seq<Bytes>, steps: seq<Step>) {
    exists drained, got :: DeliveredAs(st, src, c, bodies, steps, drained, got)
  }

  lemma DeliveredGone(st: State, src: Addr, c: nat, bodies: seq<Bytes>, fed: Step, drained: seq<Step>, got: int)
    requires Fed(fed, src, c, bodies) && Enabled(st, fed) && Drains(Apply(st, fed), c, drained, got) && got > 0
    ensures Delivered(st, src, c, bodies, [fed] + drained)
  {
    hide Fed, Enabled, Apply, Drains;
    assert DeliveredAs(st, src, c, bodies, [fed] + drained, drained, got);
  }

  lemma DeliveredNoted(st: State, src: Addr, c: nat, bodies: seq<Bytes>, fed: Step, drained: seq<Step>, got: int,
                       now: nat)
    requires Fed(fed, src, c, bodies) && Enabled(st, fed) && Drains(Apply(st, fed), c, drained, got) && got <= 0
    ensures Delivered(st, src, c, bodies, [fed] + drained + [OnDrained(c, now)])
  {
    hide Fed, Enabled, Apply, Drains;
    assert DeliveredAs(st, src, c, bodies, [fed] + drained + [OnDrained(c, now)], drained, got);
  }

  /** What of a datagram is read into a block. */
  function Clip(data: Bytes): (r: Bytes)
    ensures r <= data && |r| == if |data| <= 2048 then |data| else 2048
  {
    if |data| > BLOCK then data[..BLOCK] else data
  }

  /** What a datagram of the tunnel socket amounts to. */
  ghost predicate Handled(st: State, src: Addr, data: Bytes, bodies: seq<Bytes>, steps: seq<Step>) {
    if |data| == 1 && data[0] == PACKET_REGISTER then steps == [OnRegister(src)]
    else if |data| >= KCP_OVERHEAD && Welcome(st, src, GetConv(data)) then
      Delivered(st, src, GetConv(data), bodies, steps)
    else steps == []
  }

  // ------------------------------------------------------------------ legs of a run

  /** A part of a run: where it starts, its steps, and where it ends. */
  datatype Leg = Leg(from: State, steps: seq<Step>, to: State)

  /** Where legs that start at `st` end. */
  ghost function EndOf(st: State, legs: seq<Leg>): State {
    if legs == [] then st else legs[|legs| - 1].to
  }

  ghost function StepsOf(legs: seq<Leg>): seq<Step> {
    if legs == [] then [] else StepsOf(legs[..|legs| - 1]) + legs[|legs| - 1].steps
  }

  /** Each leg is a run and starts where the one before ended. */
  ghost predicate Joined(st: State, legs: seq<Leg>) {
    forall i {:trigger legs[i]} :: 0 <= i < |legs| ==>
      legs[i].from == EndOf(st, legs[..i]) && IsRun(legs[i].from, legs[i].steps)
      && After(legs[i].from, legs[i].steps) == legs[i].to
  }

  lemma JoinedOn(st: State, legs: seq<Leg>, leg: Leg)
    requires Joined(st, legs) && leg.from == EndOf(st, legs)
    requires IsRun(leg.from, leg.steps) && After(leg.from, leg.steps) == leg.to
    ensures Joined(st, legs + [leg]) && EndOf(st, legs + [leg]) == leg.to
    ensures StepsOf(legs + [leg]) == StepsOf(legs) + leg.steps
  {
    hide IsRun, After;
    var all := legs + [leg];
    assert all[..|legs|] == legs;
    forall i | 0 <= i < |all|
      ensures all[i].from == EndOf(st, all[..i]) && IsRun(all[i].from, all[i].steps)
      ensures After(all[i].from, all[i].steps) == all[i].to
    {
      if i < |legs| { assert all[i] == legs[i] && all[..i] == legs[..i]; }
    }
  }

  lemma JoinedPrefix(st: State, legs: seq<Leg>, n: nat)
    requires Joined(st, legs) && n <= |legs|
    ensures Joined(st, legs[..n])
  {
    hide IsRun, After, EndOf;
    var init := legs[..n];
    forall i | 0 <= i < n
      ensures init[i].from == EndOf(st, init[..i]) && IsRun(init[i].from, init[i].steps)
      ensures After(init[i].from, init[i].steps) == init[i].to
    {
      assert init[i] == legs[i] && init[..i] == legs[..i];
    }
  }

  /** The legs together are one run. */
  lemma {:induction false} JoinedRun(st: State, legs: seq<Leg>)
    requires Joined(st, legs)
    ensures IsRun(st, StepsOf(legs)) && After(st, StepsOf(legs)) == EndOf(st, legs)
    decreases |legs|
  {
    if legs != [] {
      var n := |legs| - 1;
      JoinedPrefix(st, legs, n);
      JoinedRun(st, legs[..n]);
      var last := legs[n];
      hide IsRun, After;
      assert last.from == EndOf(st, legs[..n]);
      RunJoin(st, StepsOf(legs[..n]), last.steps);
    }
  }

  ghost predicate Batches(legs: seq<Leg>) {
    forall i :: 0 <= i < |legs| ==> IsBatch(legs[i].steps)
  }

  lemma {:induction false} StepsBatch(legs: seq<Leg>)
    requires Batches(legs)
    ensures IsBatch(StepsOf(legs))
    decreases |legs|
  {
    if legs != [] {
      var init := legs[..|legs| - 1];
      assert forall i :: 0 <= i < |init| ==> init[i] == legs[i];
      StepsBatch(init);
    }
  }

  // ------------------------------------------------------------------ datagrams, replies, descriptors

  lemma BatchesOn(legs: seq<Leg>, leg: Leg)
    requires Batches(legs) && IsBatch(leg.steps)
    ensures Batches(legs + [leg])
  {
    hide IsBatch;
    var all := legs + [leg];
    forall i | 0 <= i < |all| ensures IsBatch(all[i].steps) {
      if i < |legs| { assert all[i] == legs[i]; }
    }
  }

  ghost predicate HandledIn(leg: Leg, d: Datagram) {
    Handled(leg.from, d.src, Clip(d.data), d.completes, leg.steps)
  }

  ghost predicate HandledAll(st: State, arrivals: seq<Datagram>, legs: seq<Leg>) {
    && |legs| == |arrivals| && Joined(st, legs) && Batches(legs)
    && forall i :: 0 <= i < |legs| ==> HandledIn(legs[i], arrivals[i])
  }

  lemma NoneHandled(st: State)
    ensures HandledAll(st, [], []) && EndOf(st, []) == st
  {
  }

  lemma OneHandled(st: State, arrivals: seq<Datagram>, i: nat, legs: seq<Leg>, steps: seq<Step>, st': State)
    requires i < |arrivals| && HandledAll(st, arrivals[..i], legs) && Leads(EndOf(st, legs), steps, st')
    requires Handled(EndOf(st, legs), arrivals[i].src, Clip(arrivals[i].data), arrivals[i].completes, steps)
    ensures var legs' := legs + [Leg(EndOf(st, legs), steps, st')];
            HandledAll(st, arrivals[..i + 1], legs') && EndOf(st, legs') == st'
  {
    hide Handled, IsRun, After, IsBatch, HandledAll, EndOf;
    var leg := Leg(EndOf(st, legs), steps, st');
    assert IsRun(leg.from, steps) && IsBatch(steps) && After(leg.from, steps) == st';
    assert HandledIn(leg, arrivals[i]);
    OneMore(st, arrivals, i, legs, leg);
  }

  lemma OneMore(st: State, arrivals: seq<Datagram>, i: nat, legs: seq<Leg>, leg: Leg)
    requires i < |arrivals| && HandledAll(st, arrivals[..i], legs) && leg.from == EndOf(st, legs)
    requires IsRun(leg.from, leg.steps) && IsBatch(leg.steps) && After(leg.from, leg.steps) == leg.to
    requires HandledIn(leg, arrivals[i])
    ensures HandledAll(st, arrivals[..i + 1], legs + [leg]) && EndOf(st, legs + [leg]) == leg.to
  {
    hide HandledIn, IsRun, After, IsBatch, Joined, EndOf, Batches;
    JoinedOn(st, legs, leg);
    BatchesOn(legs, leg);
    var all, upTo := legs + [leg], arrivals[..i + 1];
    forall r | 0 <= r < |all| ensures HandledIn(all[r], upTo[r]) {
      if r < i { assert all[r] == legs[r] && upTo[r] == arrivals[..i][r]; }
    }
  }

  /** Every reply is relayed, in order. */
  ghost predicate RepliedAll(fd: int, replies: seq<Bytes>, steps: seq<Step>) {
    |steps| == |replies| && forall i :: 0 <= i < |steps| ==> Replied(steps[i], fd, replies[i])
  }

  /** A descriptor epoll reports, with what can be read from it. */
  datatype Wakeup = Wakeup(fd: int, arrivals: seq<Datagram>, replies: seq<Bytes>)

  /** The descriptors of the loop itself, and the idle time. */
  datatype Loop = Loop(clientFd: int, timerFd: int, idleMs: nat)

  /** What a ready descriptor amounts to: all datagrams of the tunnel, one sweep, all replies of a
      session that is not dying, or nothing. */
  ghost predicate Dispatched(loop: Loop, st: State, w: Wakeup, steps: seq<Step>) {
    if w.fd == loop.clientFd then exists legs :: HandledAll(st, w.arrivals, legs) && steps == StepsOf(legs)
    else if w.fd == loop.timerFd then |steps| == 1 && steps[0].OnTick? && steps[0].idleMs == loop.idleMs
    else if w.fd in st.byFd && st.byFd[w.fd] in st.sessions && !st.sessions[st.byFd[w.fd]].dying
    then RepliedAll(w.fd, w.replies, steps)
    else steps == []
  }

  ghost predicate DispatchedAll(loop: Loop, st: State, batch: seq<Wakeup>, legs: seq<Leg>) {
    && |legs| == |batch| && Joined(st, legs) && Batches(legs)
    && forall i :: 0 <= i < |legs| ==> DispatchedIn(loop, legs[i], batch[i])
  }

  ghost predicate DispatchedIn(loop: Loop, leg: Leg, w: Wakeup) {
    Dispatched(loop, leg.from, w, leg.steps)
  }

  /** When its turn comes, a descriptor that was a session's when the batch was collected still is
      that session's. */
  ghost predicate Faithful(st: State, batch: seq<Wakeup>, legs: seq<Leg>) {
    forall i :: 0 <= i < |legs| && i < |batch| && batch[i].fd in st.byFd ==>
      batch[i].fd in legs[i].from.byFd && legs[i].from.byFd[batch[i].fd] == st.byFd[batch[i].fd]
  }

  lemma BatchIsFaithful(loop: Loop, st: State, batch: seq<Wakeup>, legs: seq<Leg>)
    requires Inv(st) && DispatchedAll(loop, st, batch, legs)
    ensures Faithful(st, batch, legs)
  {
    hide Inv, Dispatched, IsRun, After;
    forall i | 0 <= i < |legs| && batch[i].fd in st.byFd
      ensures batch[i].fd in legs[i].from.byFd && legs[i].from.byFd[batch[i].fd] == st.byFd[batch[i].fd]
    {
      JoinedPrefix(st, legs, i);
      JoinedRun(st, legs[..i]);
      StepsBatch(legs[..i]);
      assert legs[i].from == EndOf(st, legs[..i]);
      BatchKeepsDescriptors(st, StepsOf(legs[..i]), batch[i].fd);
    }
  }

  /** One turn of the loop: the batch, and the teardown exactly if something is to be erased. */
  ghost predicate Turn(loop: Loop, st: State, batch: seq<Wakeup>, steps: seq<Step>) {
    exists legs :: TurnAs(loop, st, batch, legs, steps)
  }

  ghost predicate TurnAs(loop: Loop, st: State, batch: seq<Wakeup>, legs: seq<Leg>, steps: seq<Step>) {
    && DispatchedAll(loop, st, batch, legs) && Faithful(st, batch, legs)
    && steps == StepsOf(legs) + if EndOf(st, legs).toErase == [] then [] else [OnTeardown]
  }
}
