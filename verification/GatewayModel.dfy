/** The session machine of the gateway as a transition system on values: what the session
    manager, the tunnel handlers and the event loop do to the session table, the descriptor
    index, the list of sessions to erase, the open descriptors and the trace. */
module GatewayModel {
  import opened TunnelProtocol
  import opened GatewayTrace
  import opened Circle
  import opened Options
  import MemoryPool

  const CONVS: nat := 0x1_0000_0000
  const FIRST_CONV: nat := 1000
  const SWEEP_MS: nat := 1000
  const BLOCK: nat := MemoryPool.BLOCK

  /** A message KCP has put together, with the endpoint whose datagram completed it. */
  datatype Message = Message(from: Addr, body: Bytes)

  datatype Session = Session(
    conv: nat,
    client: Addr,
    peer: Addr,
    target: Addr,
    fd: int,
    dying: bool,
    lastActive: nat,
    inbox: seq<Message>)

  datatype State = State(
    sessions: map<nat, Session>,
    byFd: map<int, nat>,
    toErase: seq<nat>,
    nextConv: nat,
    /** the conversation counter as it would be without wrapping */
    ticket: nat,
    lastSweep: nat,
    /** the process's open descriptors, those of the loop itself, and the key-value client's */
    open: set<int>,
    fixed: set<int>,
    kvFd: int,
    ticking: bool,
    clock: nat,
    log: seq<Event>)

  // ------------------------------------------------------------------ the invariant

  /** The table is keyed by conversation, and KCP answers only the registered endpoint with
      what only that endpoint sent. */
  ghost predicate Keyed(st: State) {
    forall c :: c in st.sessions ==>
      var s := st.sessions[c];
      && s.conv == c && c < CONVS && s.peer == s.client
      && (forall i :: 0 <= i < |s.inbox| ==> s.inbox[i].from == s.client)
  }

  /** The descriptor index is the exact inverse of the sessions' descriptors. */
  ghost predicate Indexed(st: State) {
    && (forall f :: f in st.byFd ==> f >= 0 && st.byFd[f] in st.sessions && st.sessions[st.byFd[f]].fd == f)
    && (forall c :: c in st.sessions ==>
          st.sessions[c].fd == -1 || (st.sessions[c].fd in st.byFd && st.byFd[st.sessions[c].fd] == c))
  }

  /** The descriptors in the index are open and are nobody else's. */
  ghost predicate Descriptors(st: State) {
    && st.byFd.Keys <= st.open && st.fixed <= st.open && st.byFd.Keys !! st.fixed
    && (st.kvFd == -1 || (st.kvFd >= 0 && st.kvFd in st.open && st.kvFd !in st.byFd && st.kvFd !in st.fixed))
  }

  /** The list to erase names exactly the dying sessions, each once. */
  ghost predicate Condemned(st: State) {
    && (forall i, j :: 0 <= i < j < |st.toErase| ==> st.toErase[i] != st.toErase[j])
    && (forall c :: c in st.toErase <==> c in st.sessions && st.sessions[c].dying)
  }

  predicate IsPending(s: Session, src: Addr) {
    !s.dying && s.fd < 0 && s.client == src
  }

  /** Session `c` waits for the CONNECT of the endpoint `src`. */
  predicate Waits(st: State, c: nat, src: Addr) {
    c in st.sessions && IsPending(st.sessions[c], src)
  }

  /** At most one session per endpoint waits for its CONNECT. */
  ghost predicate OnePending(st: State) {
    forall c, d, src :: Waits(st, c, src) && Waits(st, d, src) ==> c == d
  }

  lemma FewerPending(st: State, st': State)
    requires OnePending(st)
    requires forall c, src :: Waits(st', c, src) ==> Waits(st, c, src)
    ensures OnePending(st')
  {
  }

  /** Nothing is from the future, and the tick runs exactly while there are sessions. */
  ghost predicate Timed(st: State) {
    && st.lastSweep <= st.clock
    && (forall c :: c in st.sessions ==> st.sessions[c].lastActive <= st.clock)
    && (st.ticking <==> |st.sessions| > 0)
  }

  function LiveOf(s: Session): Live {
    Live(s.client, s.fd, if s.fd >= 0 then s.target else NOWHERE, s.dying)
  }

  ghost function View(st: State): Table {
    map c | c in st.sessions :: LiveOf(st.sessions[c])
  }

  /** The trace is lawful and tells the table as it is. */
  ghost predicate Traced(st: State) {
    Lawful(st.log) && Replay(st.log) == View(st)
  }

  /** The conversation numbers handed out so far, in order. */
  function IssuedConvs(log: seq<Event>): seq<nat> {
    if log == [] then []
    else
      var rest, e := IssuedConvs(log[..|log| - 1]), log[|log| - 1];
      if e.Issued? then rest + [e.conv] else rest
  }

  ghost predicate Increasing(s: seq<nat>) {
    forall i, j :: 0 <= i < j < |s| ==> s[i] < s[j]
  }

  /** The counter wraps at 2^32; before it first does, every number handed out is new. */
  ghost predicate Ticketed(st: State) {
    && st.nextConv == st.ticket % CONVS && st.ticket >= FIRST_CONV
    && (st.ticket <= CONVS ==>
          && Increasing(IssuedConvs(st.log))
          && forall i :: 0 <= i < |IssuedConvs(st.log)| ==> IssuedConvs(st.log)[i] < st.ticket)
  }

  /** What is true of the tables. */
  ghost predicate Tables(st: State) {
    Keyed(st) && Indexed(st) && Descriptors(st) && Condemned(st)
  }

  /** What is true of the course of events. */
  ghost predicate Course(st: State) {
    OnePending(st) && Timed(st) && Traced(st) && Ticketed(st)
  }

  ghost predicate Inv(st: State) {
    Tables(st) && Course(st)
  }

  ghost predicate Init(st: State) {
    && st.sessions == map[] && st.byFd == map[] && st.toErase == []
    && st.nextConv == FIRST_CONV == st.ticket && st.lastSweep == 0
    && st.fixed <= st.open && (st.kvFd == -1 || (st.kvFd >= 0 && st.kvFd in st.open && st.kvFd !in st.fixed))
    && !st.ticking && st.log == []
  }

  lemma InitInv(st: State)
    requires Init(st)
    ensures Inv(st)
  {
    assert View(st) == map[];
  }

  /** An event that issues no number, told as it happened, keeps trace and counter right. */
  lemma LogStep(st: State, st': State, e: Event)
    requires Traced(st) && Ticketed(st) && Allowed(View(st), e) && !e.Issued?
    requires st'.log == st.log + [e] && View(st') == Effect(View(st), e)
    requires st'.ticket == st.ticket && st'.nextConv == st.nextConv
    ensures Traced(st') && Ticketed(st')
  {
    hide Lawful, Replay, IssuedConvs, View;
    LawfulExtend(st.log, e);
    IssuedExtend(st.log, e);
  }

  lemma IssuedExtend(log: seq<Event>, e: Event)
    ensures IssuedConvs(log + [e]) == if e.Issued? then IssuedConvs(log) + [e.conv] else IssuedConvs(log)
  {
    assert (log + [e])[..|log|] == log;
  }

  // ------------------------------------------------------------------ elementary changes

  /** A change to one session that leaves its identity alone. */
  ghost predicate SameIdentity(s: Session, s': Session) {
    && s'.conv == s.conv && s'.client == s.client && s'.peer == s.peer && s'.fd == s.fd
    && s'.dying == s.dying && (s.fd >= 0 ==> s'.target == s.target)
    && (forall i :: 0 <= i < |s'.inbox| ==> s'.inbox[i].from == s.client)
  }

  function Amend(st: State, c: nat, s': Session): State {
    st.(sessions := st.sessions[c := s'])
  }

  lemma AmendTables(st: State, c: nat, s': Session)
    requires Tables(st) && c in st.sessions && SameIdentity(st.sessions[c], s')
    ensures Tables(Amend(st, c, s'))
  {
  }

  lemma AmendCourse(st: State, c: nat, s': Session)
    requires Course(st) && c in st.sessions && SameIdentity(st.sessions[c], s') && s'.lastActive <= st.clock
    ensures Course(Amend(st, c, s'))
  {
    var st' := Amend(st, c, s');
    assert st'.sessions.Keys == st.sessions.Keys;
    hide OnePending, Lawful, Replay, IssuedConvs;
    assert View(st') == View(st);
    FewerPending(st, st');
  }

  lemma AmendInv(st: State, c: nat, s': Session)
    requires Inv(st) && c in st.sessions && SameIdentity(st.sessions[c], s') && s'.lastActive <= st.clock
    ensures Inv(Amend(st, c, s'))
  {
    hide Tables, Course;
    AmendTables(st, c, s');
    AmendCourse(st, c, s');
  }

  function Emit(st: State, e: Event): State {
    st.(log := st.log + [e])
  }

  lemma EmitInv(st: State, e: Event)
    requires Inv(st) && Allowed(View(st), e) && (e.Answered? || e.ToTarget? || e.ToClient?)
    ensures Inv(Emit(st, e))
  {
    hide Traced, Ticketed, OnePending;
    FewerPending(st, Emit(st, e));
    assert View(Emit(st, e)) == View(st);
    LogStep(st, Emit(st, e), e);
  }

  /** `mark_dying`. */
  function Mark(st: State, c: nat): State
    requires c in st.sessions
  {
    st.(sessions := st.sessions[c := st.sessions[c].(dying := true)],
        toErase := st.toErase + [c],
        log := st.log + [Marked(c)])
  }

  lemma MarkTables(st: State, c: nat)
    requires Tables(st) && c in st.sessions && !st.sessions[c].dying
    ensures Tables(Mark(st, c))
  {
  }

  lemma MarkCourse(st: State, c: nat)
    requires Course(st) && c in st.sessions && !st.sessions[c].dying
    ensures Course(Mark(st, c))
  {
    hide Traced, Ticketed, OnePending;
    var st' := Mark(st, c);
    FewerPending(st, st');
    assert st'.sessions.Keys == st.sessions.Keys;
    assert View(st') == Effect(View(st), Marked(c));
    LogStep(st, st', Marked(c));
  }

  lemma MarkInv(st: State, c: nat)
    requires Inv(st) && c in st.sessions && !st.sessions[c].dying
    ensures Inv(Mark(st, c))
  {
    hide Tables, Course;
    MarkTables(st, c);
    MarkCourse(st, c);
  }

  /** `open_target` once the socket is there. */
  function Open(st: State, c: nat, fd: int, target: Addr): State
    requires c in st.sessions
  {
    st.(sessions := st.sessions[c := st.sessions[c].(fd := fd, target := target)],
        byFd := st.byFd[fd := c],
        open := st.open + {fd},
        log := st.log + [Opened(c, fd, target)])
  }

  lemma OpenTables(st: State, c: nat, fd: int, target: Addr)
    requires Tables(st) && c in st.sessions && st.sessions[c].fd == -1
    requires fd >= 0 && fd !in st.open
    ensures Tables(Open(st, c, fd, target))
  {
    assert fd !in st.byFd;
  }

  lemma OpenCourse(st: State, c: nat, fd: int, target: Addr)
    requires Course(st) && Tables(st) && c in st.sessions && !st.sessions[c].dying && st.sessions[c].fd == -1
    requires fd >= 0 && fd !in st.open
    ensures Course(Open(st, c, fd, target))
  {
    hide Traced, Ticketed, Keyed, Condemned, OnePending;
    var st', e := Open(st, c, fd, target), Opened(c, fd, target);
    assert Allowed(View(st), e) by {
      assert forall d :: d in st.sessions ==> st.sessions[d].fd != fd;
    }
    hide Indexed, Descriptors;
    FewerPending(st, st');
    assert st'.sessions.Keys == st.sessions.Keys;
    assert View(st') == Effect(View(st), e);
    LogStep(st, st', e);
  }

  lemma OpenInv(st: State, c: nat, fd: int, target: Addr)
    requires Inv(st) && c in st.sessions && !st.sessions[c].dying && st.sessions[c].fd == -1
    requires fd >= 0 && fd !in st.open
    ensures Inv(Open(st, c, fd, target))
  {
    hide Tables, Course;
    OpenTables(st, c, fd, target);
    OpenCourse(st, c, fd, target);
  }

  // ------------------------------------------------------------------ conversation numbers

  /** A new session under the first free number, and the answer to its endpoint. */
  function Add(st: State, src: Addr): State {
    var k := Probe(CONVS, st.nextConv, st.sessions.Keys);
    var c := FirstFree(CONVS, st.nextConv, st.sessions.Keys);
    st.(sessions := st.sessions[c := Session(c, src, src, NOWHERE, -1, false, 0, [])],
        nextConv := Around(CONVS, c, 1),
        ticket := st.ticket + k + 1,
        ticking := true,
        log := st.log + [Issued(c, src)] + [Answered(src, c)])
  }

  function NewConv(st: State): nat {
    FirstFree(CONVS, st.nextConv, st.sessions.Keys)
  }

  ghost predicate RoomForMore(st: State) {
    |st.sessions| < CONVS
  }

  lemma NewConvIsFree(st: State)
    requires RoomForMore(st) && st.nextConv < CONVS
    ensures NewConv(st) !in st.sessions && NewConv(st) < CONVS
  {
    ProbeFindsFree(CONVS, st.nextConv, st.sessions.Keys);
  }

  lemma AddTables(st: State, src: Addr)
    requires Tables(st) && RoomForMore(st) && st.nextConv < CONVS
    ensures Tables(Add(st, src))
  {
    hide Probe, Around;
    NewConvIsFree(st);
  }

  lemma AddPending(st: State, src: Addr)
    requires OnePending(st) && RoomForMore(st) && st.nextConv < CONVS
    requires forall c :: !Waits(st, c, src)
    ensures OnePending(Add(st, src))
  {
    hide Probe, Around;
    NewConvIsFree(st);
    var st', n := Add(st, src), NewConv(st);
    forall c, d, a | Waits(st', c, a) && Waits(st', d, a) ensures c == d {
      assert c != n ==> Waits(st, c, a);
      assert d != n ==> Waits(st, d, a);
    }
  }

  lemma AddLog(st: State, src: Addr)
    requires Traced(st) && Ticketed(st) && RoomForMore(st)
    ensures Traced(Add(st, src)) && Ticketed(Add(st, src))
  {
    NewConvIsFree(st);
    var st', n := Add(st, src), NewConv(st);
    var e, e' := Issued(n, src), Answered(src, n);
    AddTicket(st, src);
    hide Probe, Around, Lawful, Replay, IssuedConvs;
    LawfulExtend(st.log, e);
    LawfulExtend(st.log + [e], e');
    assert View(st') == Effect(View(st), e);
  }

  lemma Wheel(ticket: nat, k: nat)
    ensures Around(CONVS, Around(CONVS, ticket % CONVS, k), 1) == (ticket + k + 1) % CONVS
    ensures ticket + k < CONVS ==> Around(CONVS, ticket % CONVS, k) == ticket + k
  {
    hide Around;
    AroundOnce(CONVS, ticket % CONVS, k);
    AroundFrom(CONVS, ticket, k + 1);
    if ticket + k < CONVS { AroundFrom(CONVS, ticket, k); }
  }

  lemma IncreasingExtend(s: seq<nat>, x: nat)
    requires Increasing(s) && (forall i :: 0 <= i < |s| ==> s[i] < x)
    ensures Increasing(s + [x])
  {
  }

  /** Before the first wrap, the new number is above all earlier ones. */
  lemma AddTicket(st: State, src: Addr)
    requires Ticketed(st)
    ensures Ticketed(Add(st, src))
  {
    var st', n := Add(st, src), NewConv(st);
    var k := Probe(CONVS, st.nextConv, st.sessions.Keys);
    Wheel(st.ticket, k);
    hide Probe, Around, IssuedConvs, Increasing;
    IssuedExtend(st.log, Issued(n, src));
    IssuedExtend(st.log + [Issued(n, src)], Answered(src, n));
    if st'.ticket <= CONVS {
      IncreasingExtend(IssuedConvs(st.log), n);
    }
  }

  lemma AddTimed(st: State, src: Addr)
    requires Timed(st)
    ensures Timed(Add(st, src))
  {
    hide Probe, Around;
    assert NewConv(st) in Add(st, src).sessions;
  }

  lemma NumberInRange(st: State)
    requires Inv(st)
    ensures st.nextConv < CONVS && Keyed(st)
  {
    assert Ticketed(st) && Tables(st);
  }

  lemma AddInv(st: State, src: Addr)
    requires Inv(st) && RoomForMore(st) && (forall c :: !Waits(st, c, src))
    ensures Inv(Add(st, src))
  {
    hide Tables, Timed, Traced, Ticketed, OnePending, Add;
    NumberInRange(st);
    AddTables(st, src);
    AddPending(st, src);
    AddTimed(st, src);
    AddLog(st, src);
  }

  // ------------------------------------------------------------------ time, teardown, the key-value client

  function Tick(st: State, now: nat): State {
    st.(clock := now)
  }

  lemma TickInv(st: State, now: nat)
    requires Inv(st) && st.clock <= now
    ensures Inv(Tick(st, now))
  {
    hide Lawful, Replay, IssuedConvs;
    FewerPending(st, Tick(st, now));
    assert View(Tick(st, now)) == View(st);
  }

  /** The descriptors open once `fd`, or none if it is -1, is closed. */
  function Without(open: set<int>, fd: int): set<int> {
    if fd == -1 then open else open - {fd}
  }

  /** The key-value client may drop its connection and get another one, or none. */
  function SwitchKv(st: State, kv: int): State {
    st.(kvFd := kv, open := if kv == -1 then Without(st.open, st.kvFd) else Without(st.open, st.kvFd) + {kv})
  }

  predicate KvAllowed(st: State, kv: int) {
    kv == -1 || (kv >= 0 && kv !in Without(st.open, st.kvFd))
  }

  lemma SwitchKvInv(st: State, kv: int)
    requires Inv(st) && KvAllowed(st, kv)
    ensures Inv(SwitchKv(st, kv))
  {
    hide Lawful, Replay, IssuedConvs;
    FewerPending(st, SwitchKv(st, kv));
    assert View(SwitchKv(st, kv)) == View(st);
  }

  function Synced(st: State): State {
    st.(ticking := |st.sessions| > 0)
  }

  /** What becomes of session `c` when it is torn down. */
  function Drop(st: State, c: nat): State {
    if c !in st.sessions then st
    else
      var fd := st.sessions[c].fd;
      st.(sessions := st.sessions - {c},
          byFd := if fd >= 0 then st.byFd - {fd} else st.byFd,
          open := if fd >= 0 then st.open - {fd} else st.open,
          log := st.log + [Dropped(c, fd)])
  }

  /** One turn of `flush_teardown`. */
  function DropFirst(st: State): State
    requires st.toErase != []
  {
    Drop(st, st.toErase[0]).(toErase := st.toErase[1..])
  }

  /** The first session on the list is dying, and the rest of the list is the other ones. */
  lemma FirstOnList(st: State)
    requires Condemned(st) && st.toErase != []
    ensures var c, rest := st.toErase[0], st.toErase[1..];
            && c in st.sessions && st.sessions[c].dying
            && (forall d :: d in rest <==> d in st.toErase && d != c)
            && (forall i, j :: 0 <= i < j < |rest| ==> rest[i] != rest[j])
  {
    assert st.toErase[0] in st.toErase;
  }

  lemma DropCondemned(st: State)
    requires Condemned(st) && st.toErase != []
    ensures Condemned(DropFirst(st))
  {
    FirstOnList(st);
  }

  lemma DropIndexed(st: State, c: nat)
    requires Keyed(st) && Indexed(st) && Descriptors(st) && c in st.sessions
    ensures Keyed(Drop(st, c)) && Indexed(Drop(st, c)) && Descriptors(Drop(st, c))
  {
  }

  lemma DropTables(st: State)
    requires Tables(st) && st.toErase != []
    ensures Tables(Synced(DropFirst(st)))
  {
    FirstOnList(st);
    DropCondemned(st);
    DropIndexed(st, st.toErase[0]);
    hide Drop;
    TablesApart(Drop(st, st.toErase[0]), st.toErase[1..]);
  }

  /** Neither the list to erase nor the tick is part of the first three. */
  lemma TablesApart(st: State, list: seq<nat>)
    requires Keyed(st) && Indexed(st) && Descriptors(st) && Condemned(st.(toErase := list))
    ensures Tables(Synced(st.(toErase := list)))
  {
  }

  lemma DropCourse(st: State)
    requires Tables(st) && Course(Synced(st)) && st.toErase != []
    ensures Course(Synced(DropFirst(st)))
  {
    hide Traced, Ticketed, OnePending, Tables, Timed;
    FirstDying(st);
    var c := st.toErase[0];
    var st0, st', e := Synced(st), Synced(DropFirst(st)), Dropped(c, st.sessions[c].fd);
    FewerPending(st0, st');
    DropTimed(st0, st', c);
    assert View(st') == Effect(View(st0), e);
    LogStep(st0, st', e);
  }

  lemma FirstDying(st: State)
    requires Tables(st) && st.toErase != []
    ensures st.toErase[0] in st.sessions && st.sessions[st.toErase[0]].dying
  {
    FirstOnList(st);
  }

  lemma DropTimed(st: State, st': State, c: nat)
    requires Timed(st) && st'.sessions == st.sessions - {c} && st'.clock == st.clock && st'.lastSweep == st.lastSweep
    requires st'.ticking == (|st'.sessions| > 0)
    ensures Timed(st')
  {
  }

  function Flush(st: State): State
    decreases |st.toErase|
  {
    if st.toErase == [] then Synced(st) else Flush(DropFirst(st))
  }

  lemma SyncedTables(st: State)
    ensures Tables(Synced(st)) <==> Tables(st)
  {
  }

  /** The sessions teardown leaves. */
  ghost function Survivors(m: map<nat, Session>): map<nat, Session> {
    map c | c in m && !m[c].dying :: m[c]
  }

  lemma DropSurvivors(st: State)
    requires Tables(st) && st.toErase != []
    ensures Survivors(DropFirst(st).sessions) == Survivors(st.sessions)
  {
    assert st.toErase[0] in st.toErase;
  }

  lemma NoneDying(st: State)
    requires Tables(st) && st.toErase == []
    ensures Survivors(st.sessions) == st.sessions
  {
    forall c | c in st.sessions ensures !st.sessions[c].dying {
      assert c !in st.toErase;
    }
  }

  /** Teardown keeps the invariant and leaves exactly the sessions that were not dying. */
  lemma {:induction false} FlushInv(st: State)
    requires Tables(st) && Course(Synced(st))
    ensures Inv(Flush(st)) && Flush(st).toErase == []
    ensures Flush(st).sessions == Survivors(st.sessions)
    decreases |st.toErase|
  {
    hide Tables, Course, Survivors, Synced;
    if st.toErase == [] {
      SyncedTables(st);
      NoneDying(st);
      SyncedFrame(st);
    } else {
      DropTables(st);
      DropCourse(st);
      DropSurvivors(st);
      SyncedTables(DropFirst(st));
      FlushInv(DropFirst(st));
    }
  }

  /** The descriptors of dying sessions. */
  ghost function Closing(m: map<nat, Session>): set<int> {
    set c | c in m && m[c].dying && m[c].fd >= 0 :: m[c].fd
  }

  lemma DropCloses(st: State)
    requires Tables(st) && st.toErase != []
    ensures DropFirst(st).open - Closing(DropFirst(st).sessions) == st.open - Closing(st.sessions)
    ensures DropFirst(st).byFd - Closing(DropFirst(st).sessions) == st.byFd - Closing(st.sessions)
  {
    FirstOnList(st);
    var c := st.toErase[0];
    var s := st.sessions[c];
    var rest := Closing(DropFirst(st).sessions);
    assert Closing(st.sessions) == rest + if s.fd >= 0 then {s.fd} else {} by {
      forall d | d in st.sessions && d != c ensures d in DropFirst(st).sessions {
      }
      assert s.fd >= 0 ==> s.fd in Closing(st.sessions);
    }
  }

  lemma NoneClosing(st: State)
    requires Tables(st) && st.toErase == []
    ensures Closing(st.sessions) == {}
  {
    forall c | c in st.sessions ensures !st.sessions[c].dying {
      assert c !in st.toErase;
    }
  }

  /** Teardown closes exactly the descriptors of the sessions that were dying, and takes exactly
      them out of the index. */
  lemma {:induction false} FlushCloses(st: State)
    requires Tables(st)
    ensures Flush(st).open == st.open - Closing(st.sessions) && Flush(st).byFd == st.byFd - Closing(st.sessions)
    ensures Flush(st).kvFd == st.kvFd && Flush(st).fixed == st.fixed
    decreases |st.toErase|
  {
    hide Tables, Closing;
    if st.toErase == [] {
      NoneClosing(st);
    } else {
      DropTables(st);
      SyncedTables(DropFirst(st));
      DropCloses(st);
      FlushCloses(DropFirst(st));
    }
  }

  lemma TeardownReady(st: State)
    requires Inv(st)
    ensures Tables(st) && Course(Synced(st))
  {
    assert Synced(st) == st;
  }

  lemma SyncedFrame(st: State)
    ensures Synced(st).sessions == st.sessions && Synced(st).toErase == st.toErase
  {
  }

  // ------------------------------------------------------------------ one session's traffic

  function Touch(st: State, c: nat, now: nat): State
    requires c in st.sessions
  {
    Amend(Tick(st, now), c, st.sessions[c].(lastActive := now))
  }

  lemma TouchInv(st: State, c: nat, now: nat)
    requires Inv(st) && c in st.sessions && st.clock <= now
    ensures Inv(Touch(st, c, now))
  {
    assert SameIdentity(st.sessions[c], st.sessions[c].(lastActive := now)) by { assert Keyed(st); }
    hide Inv, SameIdentity;
    TickInv(st, now);
    AmendInv(Tick(st, now), c, st.sessions[c].(lastActive := now));
  }

  function Tagged(from: Addr, bodies: seq<Bytes>): seq<Message> {
    seq(|bodies|, i requires 0 <= i < |bodies| => Message(from, bodies[i]))
  }

  /** `lookup`: the session of a datagram, if its number is known and its sender owns it. */
  predicate Owns(st: State, src: Addr, c: nat) {
    c in st.sessions && st.sessions[c].client == src
  }

  /** A datagram handed to KCP: whatever messages it completes join the session's queue. */
  function Feed(st: State, src: Addr, c: nat, bodies: seq<Bytes>, now: nat): State {
    if Owns(st, src, c) && !st.sessions[c].dying then
      var s := st.sessions[c];
      Amend(Tick(st, now), c, s.(lastActive := now, inbox := s.inbox + Tagged(src, bodies)))
    else st
  }

  lemma FeedInv(st: State, src: Addr, c: nat, bodies: seq<Bytes>, now: nat)
    requires Inv(st) && st.clock <= now
    ensures Inv(Feed(st, src, c, bodies, now))
  {
    if Owns(st, src, c) && !st.sessions[c].dying {
      var s := st.sessions[c];
      var s' := s.(lastActive := now, inbox := s.inbox + Tagged(src, bodies));
      assert SameIdentity(s, s') by { assert Keyed(st); }
      hide Inv, SameIdentity;
      TickInv(st, now);
      AmendInv(Tick(st, now), c, s');
    }
  }

  /** What the outside world contributes while a message is handled: the key-value client's
      descriptor afterwards, the address a route resolved to, what `socket` returned, and
      the time. */
  datatype Env = Env(kv: int, resolved: Option<Addr>, sock: int, now: nat)

  predicate EnvAllowed(st: State, env: Env) {
    && st.clock <= env.now && KvAllowed(st, env.kv)
    && (env.sock == -1 || (env.sock >= 0 && env.sock !in SwitchKv(st, env.kv).open))
  }

  /** `handle_tunnel_msg`: the state after one message, and whether the handler gives the
      session up. */
  function Handle(st: State, c: nat, m: Message, env: Env): (State, bool)
    requires c in st.sessions
  {
    HandleParsed(st, c, Parse(m.body), m.from, env)
  }

  function HandleParsed(st: State, c: nat, parsed: Parsed, from: Addr, env: Env): (State, bool)
    requires c in st.sessions
  {
    if parsed.Malformed? then (st, false)
    else
      match parsed.packet
      case Connect(_) => if st.sessions[c].fd >= 0 then (st, false) else HandleConnect(st, c, env)
      case Data(payload) => if st.sessions[c].fd < 0 then (st, false) else (Forward(st, c, from, payload, env.now),
          false)
      case Close => (Mark(st, c), true)
      case Other(_) => (st, false)
  }

  /** Payload goes out on the session's descriptor. */
  function Forward(st: State, c: nat, from: Addr, payload: Bytes, now: nat): State
    requires c in st.sessions
  {
    Emit(Touch(st, c, now), ToTarget(c, st.sessions[c].fd, st.sessions[c].target, from, payload))
  }

  function HandleConnect(st: State, c: nat, env: Env): (State, bool)
    requires c in st.sessions
  {
    var st1 := SwitchKv(st, env.kv);
    match env.resolved
    case None => (Mark(st1, c), true)
    case Some(addr) =>
      var st2 := Amend(Tick(st1, env.now), c, st1.sessions[c].(target := addr, lastActive := env.now));
      if env.sock < 0 then (st2, true) else (Open(st2, c, env.sock, addr), false)
  }

  lemma HandleConnectInv(st: State, c: nat, env: Env)
    requires Inv(st) && c in st.sessions && !st.sessions[c].dying && st.sessions[c].fd == -1 && EnvAllowed(st, env)
    ensures Inv(HandleConnect(st, c, env).0)
  {
    var st1 := SwitchKv(st, env.kv);
    SwitchKvInv(st, env.kv);
    match env.resolved
    case None => MarkInv(st1, c);
    case Some(addr) =>
      var s' := st1.sessions[c].(target := addr, lastActive := env.now);
      assert SameIdentity(st1.sessions[c], s') by { assert Keyed(st1); }
      hide Inv, SameIdentity;
      TickInv(st1, env.now);
      AmendInv(Tick(st1, env.now), c, s');
      if env.sock >= 0 {
        OpenInv(Amend(Tick(st1, env.now), c, s'), c, env.sock, addr);
      }
  }

  lemma ForwardInv(st: State, c: nat, from: Addr, payload: Bytes, now: nat)
    requires Inv(st) && c in st.sessions && !st.sessions[c].dying && st.sessions[c].fd >= 0
    requires from == st.sessions[c].client && st.clock <= now
    ensures Inv(Forward(st, c, from, payload, now))
  {
    hide Inv;
    TouchInv(st, c, now);
    EmitInv(Touch(st, c, now), ToTarget(c, st.sessions[c].fd, st.sessions[c].target, from, payload));
  }

  lemma EnvTime(st: State, env: Env)
    requires EnvAllowed(st, env)
    ensures st.clock <= env.now
  {
  }

  lemma FdKnown(st: State, c: nat)
    requires Inv(st) && c in st.sessions
    ensures st.sessions[c].fd >= -1
  {
  }

  lemma HandleInv(st: State, c: nat, parsed: Parsed, from: Addr, env: Env)
    requires Inv(st) && c in st.sessions && !st.sessions[c].dying && from == st.sessions[c].client
    requires EnvAllowed(st, env)
    ensures Inv(HandleParsed(st, c, parsed, from, env).0)
  {
    hide Inv, HandleConnect, Mark, Forward, EnvAllowed;
    FdKnown(st, c);
    EnvTime(st, env);
    if parsed.Packet? {
      match parsed.packet
      case Connect(_) => if st.sessions[c].fd < 0 { HandleConnectInv(st, c, env); }
      case Data(payload) => if st.sessions[c].fd >= 0 { ForwardInv(st, c, from, payload, env.now); }
      case Close => MarkInv(st, c);
      case Other(_) =>
    }
  }

  /** `ikcp_recv` and the handler: the first message leaves the queue and is handled; one
      without bytes only leaves the queue. */
  function Receive(st: State, c: nat, env: Env): (State, bool)
    requires c in st.sessions && st.sessions[c].inbox != []
  {
    var s := st.sessions[c];
    var st1 := Amend(st, c, s.(inbox := s.inbox[1..]));
    if s.inbox[0].body == [] then (st1, false) else Handle(st1, c, s.inbox[0], env)
  }

  lemma ReceiveInv(st: State, c: nat, env: Env)
    requires Inv(st) && c in st.sessions && !st.sessions[c].dying && st.sessions[c].inbox != [] && EnvAllowed(st, env)
    ensures Inv(Receive(st, c, env).0)
  {
    var s := st.sessions[c];
    var s' := s.(inbox := s.inbox[1..]);
    assert SameIdentity(s, s') && s.inbox[0].from == s.client by { assert Keyed(st); }
    assert s'.lastActive <= st.clock by { assert Timed(st); }
    hide Inv, SameIdentity;
    AmendInv(st, c, s');
    if s.inbox[0].body != [] {
      HandleInv(Amend(st, c, s'), c, Parse(s.inbox[0].body), s.inbox[0].from, env);
    }
  }

  /** `handle_target_reply`, for one datagram that arrived on `fd`. */
  function Reply(st: State, fd: int, payload: Bytes, now: nat): State {
    if fd in st.byFd && st.byFd[fd] in st.sessions && !st.sessions[st.byFd[fd]].dying then
      var c := st.byFd[fd];
      Emit(Touch(st, c, now), ToClient(c, fd, st.sessions[c].peer, payload))
    else st
  }

  /** A reply keeps the invariant, and goes to the endpoint of the descriptor's session if that is
      not dying, and nowhere otherwise. */
  lemma ReplyInv(st: State, fd: int, payload: Bytes, now: nat)
    requires Inv(st) && st.clock <= now
    ensures Inv(Reply(st, fd, payload, now))
    ensures fd in st.byFd ==> st.byFd[fd] in st.sessions
    ensures Reply(st, fd, payload, now).log
         == if fd in st.byFd && !st.sessions[st.byFd[fd]].dying
            then st.log + [ToClient(st.byFd[fd], fd, st.sessions[st.byFd[fd]].client, payload)] else st.log
  {
    hide Inv;
    if fd in st.byFd {
      SessionOfFd(st, fd);
      var c := st.byFd[fd];
      if !st.sessions[c].dying {
        TouchInv(st, c, now);
        EmitInv(Touch(st, c, now), ToClient(c, fd, st.sessions[c].peer, payload));
      }
    }
  }

  lemma SessionOfFd(st: State, fd: int)
    requires Inv(st) && fd in st.byFd
    ensures var c := st.byFd[fd];
            fd >= 0 && c in st.sessions && st.sessions[c].fd == fd && st.sessions[c].peer == st.sessions[c].client
  {
    assert Indexed(st) && Keyed(st);
  }

  // ------------------------------------------------------------------ REGISTER

  /** `register_client`: an endpoint that already waits for its CONNECT is answered with the
      number it has; another one gets a new session. */
  ghost function Register(st: State, src: Addr): State {
    if c :| Waits(st, c, src) then Emit(st, Answered(src, c)) else Add(st, src)
  }

  lemma RegisterInv(st: State, src: Addr)
    requires Inv(st) && RoomForMore(st)
    ensures Inv(Register(st, src))
  {
    if c :| Waits(st, c, src) {
      forall d | Waits(st, d, src) ensures Inv(Emit(st, Answered(src, d))) {
        assert st.sessions[d].fd == -1 by { assert Indexed(st); }
        EmitInv(st, Answered(src, d));
      }
    } else {
      AddInv(st, src);
    }
  }

  /** The answer does not depend on the order in which the table is walked, and asking again
      gives the same number and changes nothing but the trace. */
  lemma RegisterAgain(st: State, src: Addr, c: nat, d: nat)
    requires Inv(st) && Waits(st, c, src) && Waits(st, d, src)
    ensures c == d && Register(st, src) == Emit(st, Answered(src, c))
    ensures Waits(Register(st, src), c, src)
  {
  }

  lemma RegisterWaits(st: State, src: Addr) returns (c: nat)
    requires Inv(st) && RoomForMore(st)
    ensures Waits(Register(st, src), c, src)
    ensures Register(st, src).log != [] && Register(st, src).log[|Register(st, src).log| - 1] == Answered(src, c)
    ensures Register(Register(st, src), src) == Emit(Register(st, src), Answered(src, c))
  {
    RegisterInv(st, src);
    if x :| Waits(st, x, src) {
      c := x;
      RegisterAgain(st, src, c, c);
    } else {
      c := NewConv(st);
      assert Waits(Add(st, src), c, src);
    }
    RegisterAgain(Register(st, src), src, c, c);
  }

  // ------------------------------------------------------------------ idle sweep

  const U64: nat := 0x1_0000_0000_0000_0000

  /** `now - then` on unsigned 64-bit words. */
  function Elapsed(now: nat, before: nat): nat {
    (now - before) % U64
  }

  predicate Idle(s: Session, now: nat, idleMs: nat) {
    !s.dying && Elapsed(now, s.lastActive) > idleMs
  }

  /** The sessions to mark, in the order the table is walked. */
  ghost predicate Enumerates(st: State, now: nat, idleMs: nat, order: seq<nat>) {
    && (forall i, j :: 0 <= i < j < |order| ==> order[i] != order[j])
    && (forall c :: c in order <==> c in st.sessions && Idle(st.sessions[c], now, idleMs))
  }

  function MarkAll(st: State, order: seq<nat>): State
    decreases |order|
  {
    if order == [] then st
    else if order[0] in st.sessions then MarkAll(Mark(st, order[0]), order[1..])
    else MarkAll(st, order[1..])
  }

  /** `sweep_idle`: at most once a second, and then every session idle for too long. */
  function Sweep(st: State, now: nat, idleMs: nat, order: seq<nat>): State {
    if Elapsed(now, st.lastSweep) < SWEEP_MS then Tick(st, now)
    else MarkAll(Swept(st, now), order)
  }

  /** Distinct sessions that are not dying yet: what `MarkAll` is used on. */
  ghost predicate Markable(st: State, order: seq<nat>) {
    && (forall i, j :: 0 <= i < j < |order| ==> order[i] != order[j])
    && (forall c :: c in order ==> c in st.sessions && !st.sessions[c].dying)
  }

  lemma MarkableRest(st: State, order: seq<nat>)
    requires Markable(st, order) && order != []
    ensures order[0] in st.sessions && !st.sessions[order[0]].dying
    ensures Markable(Mark(st, order[0]), order[1..])
    ensures forall c :: c in order <==> c == order[0] || c in order[1..]
    ensures order[0] !in order[1..]
  {
    assert order[0] in order;
    assert forall d :: d in order[1..] ==> d in order;
  }

  lemma {:induction false} MarkAllInv(st: State, order: seq<nat>)
    requires Inv(st) && Markable(st, order)
    ensures Inv(MarkAll(st, order))
    decreases |order|
  {
    hide Inv, Markable, Mark;
    if order != [] {
      MarkableRest(st, order);
      MarkInv(st, order[0]);
      MarkAllInv(Mark(st, order[0]), order[1..]);
    }
  }

  lemma {:induction false} MarkAllEffect(st: State, order: seq<nat>, c: nat)
    requires Markable(st, order) && c in st.sessions
    ensures c in MarkAll(st, order).sessions
    ensures MarkAll(st, order).sessions[c] == if c in order then st.sessions[c].(dying := true) else st.sessions[c]
    decreases |order|
  {
    hide Markable;
    if order != [] {
      MarkableRest(st, order);
      MarkAllEffect(Mark(st, order[0]), order[1..], c);
    }
  }

  function Swept(st: State, now: nat): State {
    Tick(st, now).(lastSweep := now)
  }

  lemma SweptInv(st: State, now: nat)
    requires Inv(st) && st.clock <= now
    ensures Inv(Swept(st, now))
  {
    hide Lawful, Replay, IssuedConvs;
    FewerPending(st, Swept(st, now));
    assert View(Swept(st, now)) == View(st);
  }

  lemma MarkableVictims(st: State, now: nat, idleMs: nat, order: seq<nat>)
    requires Enumerates(st, now, idleMs, order)
    ensures Markable(Swept(st, now), order)
  {
  }

  lemma NotFromTheFuture(st: State, c: nat)
    requires Inv(st) && c in st.sessions
    ensures st.lastSweep <= st.clock && st.sessions[c].lastActive <= st.clock
  {
  }

  lemma ElapsedPlain(now: nat, before: nat)
    requires before <= now < U64
    ensures Elapsed(now, before) == now - before
  {
  }

  lemma SweepInv(st: State, now: nat, idleMs: nat, order: seq<nat>)
    requires Inv(st) && st.clock <= now && Enumerates(st, now, idleMs, order)
    ensures Inv(Sweep(st, now, idleMs, order))
  {
    hide Inv, MarkAll;
    TickInv(st, now);
    SweptInv(st, now);
    MarkableVictims(st, now, idleMs, order);
    MarkAllInv(Swept(st, now), order);
  }

  /** A sweep that is due marks a session exactly when its last traffic is more than the idle
      time ago: never before, always after. */
  lemma SweepMarksExactly(st: State, now: nat, idleMs: nat, order: seq<nat>, c: nat)
    requires Inv(st) && st.clock <= now < U64 && Enumerates(st, now, idleMs, order)
    requires c in st.sessions && !st.sessions[c].dying
    ensures c in Sweep(st, now, idleMs, order).sessions
    ensures Sweep(st, now, idleMs, order).sessions[c].dying
       <==> now >= st.lastSweep + SWEEP_MS && now > st.sessions[c].lastActive + idleMs
  {
    NotFromTheFuture(st, c);
    ElapsedPlain(now, st.lastSweep);
    ElapsedPlain(now, st.sessions[c].lastActive);
    hide Inv, MarkAll, Elapsed;
    MarkableVictims(st, now, idleMs, order);
    hide Markable;
    MarkAllEffect(Swept(st, now), order, c);
  }
}
