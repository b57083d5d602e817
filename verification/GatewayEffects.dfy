/** What the events do, said outright: which fields change, to what, and which event is added to the
    trace.  Together with what a whole datagram of a connected session puts on the wire. */
module GatewayEffects {
  import opened TunnelProtocol
  import opened Circle
  import opened Options
  import opened GatewayTrace
  import opened GatewayModel
  import opened GatewayRuns
  import opened GatewayDispatch

  // ------------------------------------------------------------------ one message

  /** The message begins with the bytes of packet `p`. */
  predicate Begins(body: Bytes, p: Packet) {
    Sendable(p) && Wire(p) <= body
  }

  /** Session `c` becomes `s'`, at time `now`, and `e` is added to the trace. */
  function Becomes(st: State, c: nat, s': Session, now: nat, e: seq<Event>): State {
    st.(sessions := st.sessions[c := s'], clock := now, log := st.log + e)
  }

  /** The CONNECT of a session without target: an unknown route marks it, without a socket it only
      gets its target, and with one it is open. */
  ghost predicate ConnectOutcome(st: State, c: nat, env: Env, st': State, gone: bool)
    requires c in st.sessions
  {
    var s := st.sessions[c];
    && st'.kvFd == env.kv && (gone <==> env.resolved.None? || env.sock < 0)
    && match env.resolved
       case None =>
         st' == Becomes(st, c, s.(dying := true), st.clock, [Marked(c)]).(
           toErase := st.toErase + [c], kvFd := env.kv, open := st'.open)
       case Some(addr) =>
         var s' := s.(target := addr, lastActive := env.now);
         if env.sock < 0 then st' == Becomes(st, c, s', env.now, []).(kvFd := env.kv, open := st'.open)
         else
           && env.sock in st'.open
           && st' == Becomes(st, c, s'.(fd := env.sock), env.now, [Opened(c, env.sock, addr)]).(
                byFd := st.byFd[env.sock := c], kvFd := env.kv, open := st'.open)
  }

  /** A message of session `c`: DATA goes out on the session's descriptor, CLOSE marks the session,
      CONNECT opens it, and everything else, also DATA before a CONNECT and a second CONNECT, is
      ignored. */
  ghost predicate Dealt(st: State, c: nat, m: Message, env: Env, st': State, gone: bool)
    requires c in st.sessions
  {
    var s := st.sessions[c];
    && (forall p :: Begins(m.body, Data(p)) && s.fd >= 0 ==>
          !gone && st' == Becomes(st, c, s.(lastActive := env.now), env.now,
                                  [ToTarget(c, s.fd, s.target, m.from, p)]))
    && (Begins(m.body, Close) ==>
          gone && st' == Becomes(st, c, s.(dying := true), st.clock, [Marked(c)]).(toErase := st.toErase + [c]))
    && (forall r :: Begins(m.body, Connect(r)) && s.fd < 0 ==> ConnectOutcome(st, c, env, st', gone))
    && (IsIgnored(s, m.body) ==> !gone && st' == st)
  }

  ghost predicate IsIgnored(s: Session, body: Bytes) {
    && (forall p :: Begins(body, Data(p)) ==> s.fd < 0) && !Begins(body, Close)
    && (forall r :: Begins(body, Connect(r)) ==> s.fd >= 0)
  }

  lemma ConnectDone(st: State, c: nat, env: Env)
    requires c in st.sessions
    ensures ConnectOutcome(st, c, env, HandleConnect(st, c, env).0, HandleConnect(st, c, env).1)
  {
    assert st.log + [] == st.log;
  }

  /** A message begins with one packet at most, the one it is parsed to. */
  lemma BeginsOnce(body: Bytes)
    ensures forall p :: Begins(body, p) <==> Parse(body) == Packet(p)
  {
    forall p ensures Begins(body, p) <==> Parse(body) == Packet(p) {
      ParseAccepts(body, p);
    }
  }

  lemma HandleDone(st: State, c: nat, m: Message, env: Env)
    requires c in st.sessions
    ensures Dealt(st, c, m, env, Handle(st, c, m, env).0, Handle(st, c, m, env).1)
  {
    hide Parse, Wire, Sendable, HandleConnect, Begins, ConnectOutcome;
    BeginsOnce(m.body);
    ConnectDone(st, c, env);
    var r := Handle(st, c, m, env);
    match Parse(m.body)
    case Malformed =>
    case Packet(Connect(route)) => assert Begins(m.body, Connect(route));
    case Packet(Data(payload)) => assert Begins(m.body, Data(payload));
    case Packet(Close) =>
    case Packet(Other(_)) =>
  }

  // ------------------------------------------------------------------ every event

  /** A REGISTER: the endpoint's waiting session is answered again, or a new one is issued. */
  ghost predicate Registered(st: State, src: Addr, st': State, c: nat) {
    && c in st'.sessions && !st'.sessions[c].dying && st'.sessions[c].fd == -1 && st'.sessions[c].client == src
    && if c in st.sessions then st' == st.(log := st.log + [Answered(src, c)])
       else
         && (forall d :: d in st.sessions ==> !(st.sessions[d].client == src && st.sessions[d].fd == -1
                                                && !st.sessions[d].dying))
         && st'.log == st.log + [Issued(c, src), Answered(src, c)] && st'.ticking
         && st'.sessions == st.sessions[c := Session(c, src, src, NOWHERE, -1, false, 0, [])]
         && st'.byFd == st.byFd && st'.open == st.open && st'.toErase == st.toErase && st'.clock == st.clock
  }

  /** A sweep, at most once a second: who has been idle for longer than `idleMs` is dying. */
  ghost predicate SweptAt(st: State, now: nat, idleMs: nat, st': State) {
    var due := now >= st.lastSweep + 1000;
    && st'.clock == now && st'.lastSweep == (if due then now else st.lastSweep)
    && st'.sessions.Keys == st.sessions.Keys && st'.byFd == st.byFd && st'.open == st.open
    && forall c :: c in st.sessions ==>
         var s := st.sessions[c];
         st'.sessions[c] == s.(dying := s.dying || (due && now > s.lastActive + idleMs))
  }

  ghost predicate Done(st: State, step: Step, st': State) {
    match step
    case OnRegister(src) => exists c :: Registered(st, src, st', c)
    case OnDatagram(src, c, bodies, now) =>
      if c in st.sessions && st.sessions[c].client == src && !st.sessions[c].dying then
        var s := st.sessions[c];
        exists more :: |more| == |bodies| && (forall i :: 0 <= i < |more| ==> more[i] == Message(src, bodies[i]))
          && st' == Becomes(st, c, s.(lastActive := now, inbox := s.inbox + more), now, [])
      else st' == st
    case OnMessage(c, env) =>
      && c in st.sessions && st.sessions[c].inbox != []
      && var s := st.sessions[c];
         var st1 := st.(sessions := st.sessions[c := s.(inbox := s.inbox[1..])]);
         if s.inbox[0].body == [] then st' == st1 else exists gone :: Dealt(st1, c, s.inbox[0], env, st', gone)
    case OnDrained(c, now) =>
      c in st.sessions && st' == Becomes(st, c, st.sessions[c].(lastActive := now), now, [])
    case OnReply(fd, payload, now) =>
      if fd in st.byFd && st.byFd[fd] in st.sessions && !st.sessions[st.byFd[fd]].dying then
        var c := st.byFd[fd];
        var s := st.sessions[c];
        st' == Becomes(st, c, s.(lastActive := now), now, [ToClient(c, fd, s.client, payload)])
      else st' == st
    case OnTick(now, idleMs, _) => now < U64 ==> SweptAt(st, now, idleMs, st')
    case OnTeardown =>
      && st'.sessions == (map c | c in st.sessions && !st.sessions[c].dying :: st.sessions[c])
      && st'.open == st.open - Closing(st.sessions) && st'.byFd == st.byFd - Closing(st.sessions)
      && st'.toErase == []
  }

  lemma DoneRegister(st: State, src: Addr)
    requires Inv(st) && RoomForMore(st)
    ensures exists c :: Registered(st, src, Register(st, src), c)
  {
    hide FirstFree, Probe, Inv, Keyed;
    NumberInRange(st);
    NewConvIsFree(st);
    if c :| Waits(st, c, src) {
      RegisterAgain(st, src, c, c);
      FdKnown(st, c);
      assert Registered(st, src, Register(st, src), c);
    } else {
      NobodyWaits(st, src);
      assert Registered(st, src, Register(st, src), NewConv(st));
    }
  }

  lemma NobodyWaits(st: State, src: Addr)
    requires forall c :: !Waits(st, c, src)
    ensures forall d :: d in st.sessions ==> !IsPending(st.sessions[d], src)
  {
    assert forall d :: d in st.sessions ==> !Waits(st, d, src);
  }

  /** The first session ever gets number 1000. */
  lemma FirstNumber(st: State, src: Addr)
    requires Init(st)
    ensures Register(st, src).log == [Issued(1000, src), Answered(src, 1000)]
  {
    assert forall c :: !Waits(st, c, src);
    assert Probe(CONVS, 1000, {}) == 0;
  }

  lemma DoneTick(st: State, now: nat, idleMs: nat, order: seq<nat>)
    requires Inv(st) && st.clock <= now < U64 && Enumerates(st, now, idleMs, order)
    ensures SweptAt(st, now, idleMs, Sweep(st, now, idleMs, order))
  {
    hide Inv, MarkAll, Markable, Elapsed;
    OnTime(st);
    ElapsedPlain(now, st.lastSweep);
    MarkableVictims(st, now, idleMs, order);
    MarkAllKeys(Swept(st, now), order);
    MarkAllRest(Swept(st, now), order);
    forall c | c in st.sessions
      ensures c in MarkAll(Swept(st, now), order).sessions
      ensures MarkAll(Swept(st, now), order).sessions[c]
           == st.sessions[c].(dying := st.sessions[c].dying || now > st.sessions[c].lastActive + idleMs)
    {
      MarkAllEffect(Swept(st, now), order, c);
      ElapsedPlain(now, st.sessions[c].lastActive);
    }
  }

  lemma OnTime(st: State)
    requires Inv(st)
    ensures st.lastSweep <= st.clock && forall c :: c in st.sessions ==> st.sessions[c].lastActive <= st.clock
  {
  }

  lemma DoneMessage(st: State, c: nat, env: Env)
    requires Enabled(st, OnMessage(c, env))
    ensures Done(st, OnMessage(c, env), Receive(st, c, env).0)
  {
    hide EnvAllowed, Handle, Dealt;
    var s := st.sessions[c];
    var st1 := Amend(st, c, s.(inbox := s.inbox[1..]));
    HandleDone(st1, c, s.inbox[0], env);
  }

  lemma DoneDatagram(st: State, step: Step)
    requires step.OnDatagram?
    ensures Done(st, step, Feed(st, step.src, step.conv, step.bodies, step.now))
  {
    var more := Tagged(step.src, step.bodies);
    assert forall i :: 0 <= i < |more| ==> more[i] == Message(step.src, step.bodies[i]);
    assert st.log + [] == st.log;
  }

  lemma DoneReply(st: State, step: Step)
    requires Inv(st) && step.OnReply?
    ensures Done(st, step, Reply(st, step.fd, step.payload, step.now))
  {
    hide Inv;
    if step.fd in st.byFd { SessionOfFd(st, step.fd); }
  }

  lemma DoneTeardown(st: State)
    requires Inv(st)
    ensures Done(st, OnTeardown, Flush(st))
  {
    hide Inv, Flush, Closing, Tables, Course;
    TeardownReady(st);
    FlushInv(st);
    FlushCloses(st);
  }

  /** Every event does exactly that. */
  lemma StepDone(st: State, step: Step)
    requires Inv(st) && Enabled(st, step)
    ensures Done(st, step, Apply(st, step))
  {
    hide Inv, EnvAllowed, Enumerates, Receive, Sweep, Flush, Register, Registered, SweptAt, Feed, Reply, Dealt, Closing;
    match step
    case OnRegister(src) => DoneRegister(st, src);
    case OnDatagram(_, _, _, _) => DoneDatagram(st, step);
    case OnMessage(c, env) => DoneMessage(st, c, env);
    case OnDrained(c, now) => assert st.log + [] == st.log;
    case OnReply(_, _, _) => DoneReply(st, step);
    case OnTick(now, idleMs, order) => if now < U64 { DoneTick(st, now, idleMs, order); }
    case OnTeardown => DoneTeardown(st);
  }

  // ------------------------------------------------------------------ what a connected session sends

  /** What a message of a connected session adds to the trace. */
  function Speaks(c: nat, s: Session, body: Bytes): seq<Event> {
    match Parse(body)
    case Packet(Data(payload)) => [ToTarget(c, s.fd, s.target, s.client, payload)]
    case Packet(Close) => [Marked(c)]
    case _ => []
  }

  function Traffic(c: nat, s: Session, inbox: seq<Message>): seq<Event> {
    if inbox == [] then [] else Speaks(c, s, inbox[0].body) + Traffic(c, s, inbox[1..])
  }

  /** How many messages are taken from a queue: up to one that does not fit a block, and including
      an empty one or a CLOSE. */
  function Taken(inbox: seq<Message>): (n: nat)
    ensures n <= |inbox|
  {
    if inbox == [] || |inbox[0].body| > 2048 then 0
    else if inbox[0].body == [] || Parse(inbox[0].body) == Packet(Close) then 1
    else 1 + Taken(inbox[1..])
  }

  predicate Connected(st: State, c: nat) {
    c in st.sessions && !st.sessions[c].dying && st.sessions[c].fd >= 0
  }

  /** One message of a connected session. */
  lemma OneSpoken(st: State, c: nat, env: Env)
    requires Inv(st) && Connected(st, c) && Enabled(st, OnMessage(c, env))
    ensures var s, r := st.sessions[c], Receive(st, c, env);
            && r.0.log == st.log + Speaks(c, s, s.inbox[0].body) && c in r.0.sessions
            && r.0.sessions[c].inbox == s.inbox[1..] && r.0.sessions[c].fd == s.fd
            && r.0.sessions[c].target == s.target && r.0.sessions[c].client == s.client
            && (r.1 <==> Parse(s.inbox[0].body) == Packet(Close)) && r.0.sessions[c].dying == r.1
  {
    hide Inv, EnvAllowed, HandleConnect, Parse;
    var s := st.sessions[c];
    FromOwner(st, c);
    ParseNothing();
    assert st.log + [] == st.log;
  }

  lemma FromOwner(st: State, c: nat)
    requires Inv(st) && c in st.sessions && st.sessions[c].inbox != []
    ensures st.sessions[c].inbox[0].from == st.sessions[c].client
  {
    assert Keyed(st);
  }

  lemma ParseNothing()
    ensures Parse([]) == Malformed
  {
  }

  lemma TrafficFirst(c: nat, s: Session, s': Session, inbox: seq<Message>, n: nat)
    requires 0 < n <= |inbox| && s'.fd == s.fd && s'.target == s.target && s'.client == s.client
    ensures Traffic(c, s, inbox[..n]) == Speaks(c, s, inbox[0].body) + Traffic(c, s', inbox[1..][..n - 1])
  {
    assert inbox[..n][1..] == inbox[1..][..n - 1];
    SameTraffic(c, s, s', inbox[1..][..n - 1]);
  }

  lemma {:induction false} SameTraffic(c: nat, s: Session, s': Session, inbox: seq<Message>)
    requires s'.fd == s.fd && s'.target == s.target && s'.client == s.client
    ensures Traffic(c, s, inbox) == Traffic(c, s', inbox)
    decreases |inbox|
  {
    if inbox != [] { SameTraffic(c, s, s', inbox[1..]); }
  }

  /** Draining the queue of a connected session takes so many messages and relays them in order. */
  lemma {:induction false} DrainRelays(st: State, c: nat, steps: seq<Step>, got: int)
    requires Inv(st) && Connected(st, c) && Drains(st, c, steps, got)
    ensures IsRun(st, steps) && |steps| == Taken(st.sessions[c].inbox)
    ensures var s, st' := st.sessions[c], After(st, steps);
            && st'.log == st.log + Traffic(c, s, s.inbox[..|steps|])
            && c in st'.sessions && st'.sessions[c].inbox == s.inbox[|steps|..]
    decreases |steps|
  {
    hide Inv, EnvAllowed, Receive, Parse, Speaks;
    var s := st.sessions[c];
    if steps == [] {
      assert s.inbox[..0] == [] && s.inbox[0..] == s.inbox && st.log + [] == st.log;
    } else {
      var env, st1 := steps[0].env, Apply(st, steps[0]);
      OneSpoken(st, c, env);
      StepInv(st, steps[0]);
      if s.inbox[0].body == [] || Receive(st, c, env).1 {
        assert steps[1..] == [] && s.inbox[1..][..0] == [];
      } else {
        DrainRelays(st1, c, steps[1..], got);
      }
      TrafficFirst(c, s, st1.sessions[c], s.inbox, |steps|);
    }
  }

  // ------------------------------------------------------------------ a datagram of the tunnel

  /** The first bytes of a KCP segment of conversation `conv`, least significant byte first. */
  predicate Heads(pkt: Bytes, conv: nat) {
    && |pkt| >= 4 && conv < CONVS && pkt[0] == conv % 256 && pkt[1] == conv / 256 % 256
    && pkt[2] == conv / 0x1_0000 % 256 && pkt[3] == conv / 0x100_0000
  }

  lemma HeadsConv(pkt: Bytes, conv: nat)
    requires Heads(pkt, conv)
    ensures GetConv(pkt) == conv
  {
    FourBytes(conv);
  }

  /** A datagram of one byte 4 is a REGISTER.  One of 24 bytes or more that begins with the number of
      a session of its sender that is not dying is delivered to it.  All others are dropped. */
  lemma SegmentDelivered(st: State, src: Addr, conv: nat, pkt: Bytes, bodies: seq<Bytes>, steps: seq<Step>)
    requires Handled(st, src, pkt, bodies, steps)
    ensures pkt == [4] ==> steps == [OnRegister(src)]
    ensures pkt != [4] && |pkt| < 24 ==> steps == []
    ensures |pkt| >= 24 && Heads(pkt, conv) ==>
              if conv in st.sessions && st.sessions[conv].client == src && !st.sessions[conv].dying
              then Delivered(st, src, conv, bodies, steps) else steps == []
  {
    hide Delivered, GetConv, Heads;
    if |pkt| >= 24 && Heads(pkt, conv) { HeadsConv(pkt, conv); }
  }

  /** Messages that are all DATA are all taken, and each is one payload to the target. */
  lemma {:induction false} AllSpoken(c: nat, s: Session, inbox: seq<Message>, payloads: seq<Bytes>)
    requires |payloads| == |inbox|
    requires forall i :: 0 <= i < |inbox| ==> Parse(inbox[i].body) == Packet(Data(payloads[i]))
    requires forall i :: 0 <= i < |inbox| ==> 0 < |inbox[i].body| <= 2048
    ensures Taken(inbox) == |inbox| == |Traffic(c, s, inbox)|
    ensures forall i :: 0 <= i < |inbox| ==>
              Traffic(c, s, inbox)[i] == ToTarget(c, s.fd, s.target, s.client, payloads[i])
    decreases |inbox|
  {
    hide Parse;
    if inbox != [] {
      AllSpoken(c, s, inbox[1..], payloads[1..]);
    }
  }

  /** The run of a delivery, up to the note of the time, is the datagram and then the draining. */
  lemma DeliveredLog(st: State, src: Addr, c: nat, bodies: seq<Bytes>, steps: seq<Step>, drained: seq<Step>, got: int)
    requires IsRun(st, steps) && DeliveredAs(st, src, c, bodies, steps, drained, got)
    requires IsRun(Apply(st, steps[0]), drained)
    ensures After(st, steps).log == After(Apply(st, steps[0]), drained).log
  {
    hide Drains, Enabled, Feed, Fed, Receive, Register, Reply, Sweep, Flush;
    var st1 := Apply(st, steps[0]);
    if got > 0 {
      assert steps[1..] == drained;
    } else {
      var now :| steps == [steps[0]] + drained + [OnDrained(c, now)];
      assert steps[1..] == drained + [OnDrained(c, now)];
      LastQuiet(st1, drained, OnDrained(c, now));
    }
  }

  lemma {:induction false} LastQuiet(st: State, steps: seq<Step>, last: Step)
    requires last.OnDrained? && IsRun(st, steps) && IsRun(st, steps + [last])
    ensures After(st, steps + [last]).log == After(st, steps).log
    decreases |steps|
  {
    hide Feed, Receive, Register, Reply, Sweep, Flush;
    if steps == [] {
      assert steps + [last] == [last] && [last][1..] == [];
    } else {
      assert (steps + [last])[1..] == steps[1..] + [last];
      LastQuiet(Apply(st, steps[0]), steps[1..], last);
    }
  }

  /** A datagram of a connected session with an empty queue, that completes DATA messages: each
      payload goes out on the session's descriptor, in order, and nothing else is sent. */
  lemma DatagramRelayed(st: State, src: Addr, c: nat, data: Bytes, bodies: seq<Bytes>, payloads: seq<Bytes>,
                        steps: seq<Step>)
    requires Inv(st) && Connected(st, c) && st.sessions[c].client == src && st.sessions[c].inbox == []
    requires |data| >= 24 && Heads(data, c) && |payloads| == |bodies|
    requires forall i :: 0 <= i < |bodies| ==> Begins(bodies[i], Data(payloads[i])) && |bodies[i]| <= 2048
    requires Handled(st, src, data, bodies, steps) && IsRun(st, steps)
    ensures var s, log := st.sessions[c], After(st, steps).log;
            && |log| == |st.log| + |payloads| && st.log <= log
            && forall i :: 0 <= i < |payloads| ==>
                 log[|st.log| + i] == ToTarget(c, s.fd, s.target, src, payloads[i])
  {
    hide Inv, Handled, Heads, Begins, Drains, Fed, Parse, Traffic, Taken, IsRun, After;
    SegmentDelivered(st, src, c, data, bodies, steps);
    var drained, got :| DeliveredAs(st, src, c, bodies, steps, drained, got);
    FedInbox(st, src, c, bodies, steps[0]);
    var st1 := Apply(st, steps[0]);
    var s1 := st1.sessions[c];
    StepInv(st, steps[0]);
    DrainRelays(st1, c, drained, got);
    DeliveredLog(st, src, c, bodies, steps, drained, got);
    forall i | 0 <= i < |bodies|
      ensures Parse(s1.inbox[i].body) == Packet(Data(payloads[i])) && 0 < |s1.inbox[i].body|
    {
      DataBegins(bodies[i], payloads[i]);
    }
    AllSpoken(c, s1, s1.inbox, payloads);
    assert s1.inbox[..|bodies|] == s1.inbox;
  }

  lemma DataBegins(body: Bytes, payload: Bytes)
    requires Begins(body, Data(payload))
    ensures Parse(body) == Packet(Data(payload)) && |body| > 0
  {
    ParseAccepts(body, Data(payload));
  }

  lemma FedInbox(st: State, src: Addr, c: nat, bodies: seq<Bytes>, step: Step)
    requires Connected(st, c) && st.sessions[c].client == src && st.sessions[c].inbox == []
    requires Fed(step, src, c, bodies) && Enabled(st, step)
    ensures var st' := Apply(st, step);
            && Connected(st', c) && st'.log == st.log && |st'.sessions[c].inbox| == |bodies|
            && (forall i :: 0 <= i < |bodies| ==> st'.sessions[c].inbox[i].body == bodies[i])
            && st'.sessions[c].fd == st.sessions[c].fd && st'.sessions[c].target == st.sessions[c].target
            && st'.sessions[c].client == src
  {
  }
}
