/** No descriptor is ever lost or leaked: at every point of a run exactly those are open that the
    sessions have, that the key-value client has, and that were open from the start. */
module GatewayDescriptors {
  import opened TunnelProtocol
  import opened GatewayModel
  import opened GatewayRuns

  ghost function KvOf(st: State): set<int> {
    if st.kvFd == -1 then {} else {st.kvFd}
  }

  /** Open are `base`, the descriptors in the index and the key-value client's, and `base` is apart. */
  ghost predicate Accounted(st: State, base: set<int>) {
    st.open == base + st.byFd.Keys + KvOf(st) && base !! st.byFd.Keys && base !! KvOf(st)
  }

  lemma AtTheStart(st: State)
    requires Init(st)
    ensures Accounted(st, st.open - KvOf(st))
  {
  }

  lemma SameOpen(st: State, st': State, base: set<int>)
    requires Accounted(st, base) && st'.open == st.open && st'.byFd == st.byFd && st'.kvFd == st.kvFd
    ensures Accounted(st', base)
  {
  }

  lemma SwitchAccounted(st: State, kv: int, base: set<int>)
    requires Accounted(st, base) && Descriptors(st) && KvAllowed(st, kv)
    ensures Accounted(SwitchKv(st, kv), base)
  {
  }

  lemma OpenAccounted(st: State, c: nat, fd: int, base: set<int>)
    requires Accounted(st, base) && c in st.sessions && fd !in st.open
    ensures forall target :: Accounted(Open(st, c, fd, target), base)
  {
  }

  lemma ConnectAccounted(st: State, c: nat, env: Env, base: set<int>)
    requires Accounted(st, base) && Descriptors(st) && c in st.sessions && EnvAllowed(st, env)
    ensures Accounted(HandleConnect(st, c, env).0, base)
  {
    hide Accounted;
    var st1 := SwitchKv(st, env.kv);
    SwitchAccounted(st, env.kv, base);
    match env.resolved
    case None => SameOpen(st1, Mark(st1, c), base);
    case Some(addr) =>
      var st2 := Amend(Tick(st1, env.now), c, st1.sessions[c].(target := addr, lastActive := env.now));
      SameOpen(st1, st2, base);
      if env.sock >= 0 { OpenAccounted(st2, c, env.sock, base); }
  }

  lemma DescriptorsApart(st: State)
    requires Inv(st)
    ensures Descriptors(st)
  {
  }

  lemma AllowedStill(st: State, st': State, env: Env)
    requires st'.open == st.open && st'.kvFd == st.kvFd && st'.clock == st.clock && EnvAllowed(st, env)
    requires Descriptors(st) && st'.byFd == st.byFd && st'.fixed == st.fixed
    ensures EnvAllowed(st', env) && Descriptors(st')
  {
  }

  lemma MessageAccounted(st: State, c: nat, env: Env, base: set<int>)
    requires Inv(st) && Accounted(st, base) && Enabled(st, OnMessage(c, env))
    ensures Accounted(Receive(st, c, env).0, base)
  {
    hide Inv, Accounted, Parse, HandleConnect, EnvAllowed, Descriptors;
    DescriptorsApart(st);
    var s := st.sessions[c];
    var st1 := Amend(st, c, s.(inbox := s.inbox[1..]));
    SameOpen(st, st1, base);
    var parsed := Parse(s.inbox[0].body);
    if s.inbox[0].body != [] && parsed.Packet? && parsed.packet.Connect? && s.fd < 0 {
      AllowedStill(st, st1, env);
      ConnectAccounted(st1, c, env, base);
    } else {
      SameOpen(st1, Receive(st, c, env).0, base);
    }
  }

  lemma TeardownAccounted(st: State, base: set<int>)
    requires Inv(st) && Accounted(st, base)
    ensures Accounted(Flush(st), base)
  {
    hide Inv, Flush, Closing, Tables, Course;
    TeardownReady(st);
    FlushCloses(st);
    ClosingIndexed(st);
    Less(base, st.byFd, KvOf(st), Closing(st.sessions));
  }

  lemma ClosingIndexed(st: State)
    requires Inv(st)
    ensures Closing(st.sessions) <= st.byFd.Keys && Closing(st.sessions) !! KvOf(st)
  {
    assert Indexed(st) && Descriptors(st);
  }

  lemma Less(base: set<int>, m: map<int, nat>, kv: set<int>, gone: set<int>)
    requires base !! m.Keys && gone <= m.Keys && gone !! kv
    ensures base + m.Keys + kv - gone == base + (m - gone).Keys + kv && base !! (m - gone).Keys
  {
  }

  lemma StepAccounted(st: State, step: Step, base: set<int>)
    requires Inv(st) && Accounted(st, base) && Enabled(st, step)
    ensures Accounted(Apply(st, step), base)
  {
    hide Inv, Accounted, EnvAllowed, Enumerates, Receive, MarkAll, Flush;
    match step
    case OnRegister(src) => SameOpen(st, Register(st, src), base);
    case OnDatagram(_, _, _, _) => SameOpen(st, Apply(st, step), base);
    case OnMessage(c, env) => MessageAccounted(st, c, env, base);
    case OnDrained(_, _) => SameOpen(st, Apply(st, step), base);
    case OnReply(_, _, _) => SameOpen(st, Apply(st, step), base);
    case OnTick(now, _, order) =>
      MarkAllRest(Swept(st, now), order);
      SameOpen(st, Apply(st, step), base);
    case OnTeardown => TeardownAccounted(st, base);
  }

  lemma {:induction false} RunAccounted(st: State, steps: seq<Step>, base: set<int>)
    requires Inv(st) && Accounted(st, base) && IsRun(st, steps)
    ensures Accounted(After(st, steps), base)
    decreases |steps|
  {
    hide Inv, Accounted, Enabled, Apply;
    if steps != [] {
      StepAccounted(st, steps[0], base);
      StepInv(st, steps[0]);
      RunAccounted(Apply(st, steps[0]), steps[1..], base);
    }
  }

  /** Over every run from the start: a descriptor is open exactly if it is a session's, is the
      key-value client's, or was open from the start and was not the client's. */
  lemma NoLeaks(st: State, steps: seq<Step>, fd: int)
    requires Init(st) && IsRun(st, steps)
    ensures var st' := After(st, steps);
            fd in st'.open <==> (exists c :: c in st'.sessions && st'.sessions[c].fd == fd && fd >= 0)
                                || fd in KvOf(st') || fd in st.open - KvOf(st)
  {
    InitInv(st);
    AtTheStart(st);
    RunAccounted(st, steps, st.open - KvOf(st));
    RunInv(st, steps);
    IndexTold(After(st, steps), fd);
    hide Inv, IsRun, After;
  }

  lemma IndexTold(st: State, fd: int)
    requires Inv(st)
    ensures fd in st.byFd <==> exists c :: c in st.sessions && st.sessions[c].fd == fd && fd >= 0
  {
    if fd in st.byFd { assert st.byFd[fd] in st.sessions; }
  }
}
