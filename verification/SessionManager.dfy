/** The session manager: the session table, the index from descriptors to sessions and the list
    of sessions to erase, updated in place.  Every method is proved to do what the session
    machine on values does.  A pointer to a session, whose place in the table never moves, is
    its conversation number. */
module SessionManager {
  import opened TunnelProtocol
  import opened GatewayTrace
  import opened Circle
  import opened GatewayModel
  import opened Options

  /** The operating system as the gateway meets it.  What it answers is left open, within what
      it promises. */
  class Os {
    var open: set<int>
    const fixed: set<int>
    var kvFd: int
    var clock: nat
    var armed: bool
    /** What has been sent, and when sessions came and went. */
    ghost var log: seq<Event>
    /** Which routes have been looked up, with the answers, and what `socket` has returned. */
    ghost var asked: seq<(Bytes, Option<Addr>)>
    ghost var sockets: seq<int>

    /** The time in milliseconds, on a clock that does not run backwards. */
    method Now() returns (t: nat)
      modifies this`clock
      ensures t == clock >= old(clock)
    {
      var reading: nat := *;
      t := if reading < clock then clock else reading;
      clock := t;
    }

    /** A descriptor that is not open, or -1. */
    method Socket() returns (fd: int)
      modifies this`open, this`sockets
      ensures fd == -1 || (fd >= 0 && fd !in old(open))
      ensures open == if fd == -1 then old(open) else old(open) + {fd}
      ensures sockets == old(sockets) + [fd]
    {
      fd := *;
      if fd < 0 || fd in open {
        fd := -1;
      } else {
        open := open + {fd};
      }
      sockets := sockets + [fd];
    }

    /** The key-value client looks a route up.  It may drop its connection and get another
        descriptor, or none, and the route may have no address. */
    method Resolve(route: Bytes) returns (addr: Option<Addr>)
      modifies this`kvFd, this`open, this`asked
      ensures asked == old(asked) + [(route, addr)]
      ensures kvFd == -1 || (kvFd >= 0 && kvFd !in Without(old(open), old(kvFd)))
      ensures open == if kvFd == -1 then Without(old(open), old(kvFd)) else Without(old(open), old(kvFd)) + {kvFd}
    {
      open, kvFd := Without(open, kvFd), *;
      addr := *;
      if kvFd < 0 || kvFd in open {
        kvFd := -1;
      } else {
        open := open + {kvFd};
      }
      asked := asked + [(route, addr)];
    }

    method Close(fd: int)
      modifies this`open
      ensures open == old(open) - {fd}
    {
      open := open - {fd};
    }
  }

  class SessionManager {
    var sessions: map<nat, Session>
    var fdToSession: map<int, nat>
    var toErase: seq<nat>
    var nextConv: nat
    var lastIdleSweep: nat
    const idleMs: nat
    const os: Os
    ghost var ticket: nat

    /** The whole state as a value. */
    ghost function Abs(): State
      reads this, os
    {
      State(sessions, fdToSession, toErase, nextConv, ticket, lastIdleSweep,
            os.open, os.fixed, os.kvFd, os.armed, os.clock, os.log)
    }

    constructor (o: Os, idle: nat)
      requires o.fixed <= o.open && (o.kvFd == -1 || (o.kvFd >= 0 && o.kvFd in o.open && o.kvFd !in o.fixed))
      requires !o.armed && o.log == []
      ensures Init(Abs()) && Inv(Abs()) && os == o && idleMs == idle
    {
      sessions, fdToSession, toErase := map[], map[], [];
      nextConv, ticket, lastIdleSweep, idleMs := FIRST_CONV, FIRST_CONV, 0, idle;
      os := o;
      new;
      InitInv(Abs());
    }

    predicate Empty()
      reads this
    {
      |sessions| == 0
    }

    predicate TeardownPending()
      reads this
    {
      toErase != []
    }

    /** `sync_timer`: the tick runs while there are sessions. */
    method SyncTimer()
      modifies os`armed
      ensures os.armed == (|sessions| > 0)
    {
      os.armed := !Empty();
    }

    /** The first number from the counter on that no session has. */
    method AllocConv() returns (c: nat)
      requires nextConv < CONVS && |sessions| < CONVS
      modifies this`nextConv, this`ticket
      ensures c == FirstFree(CONVS, old(nextConv), sessions.Keys) && nextConv == Around(CONVS, c, 1)
      ensures c !in sessions && c < CONVS
      ensures ticket == old(ticket) + Probe(CONVS, old(nextConv), sessions.Keys) + 1
    {
      hide Around, Tried, FirstFree, Probe;
      ghost var start, used, n := nextConv, sessions.Keys, 0;
      TriedNone(CONVS, start, used);
      while true
        invariant nextConv < CONVS && nextConv == Around(CONVS, start, n) && Tried(CONVS, start, used, n)
            && ticket == old(ticket) + n
        decreases |used| - n
      {
        c := nextConv;
        nextConv, ticket := Around(CONVS, nextConv, 1), ticket + 1;
        if c !in sessions {
          TriedEnough(CONVS, start, used, n);
          return;
        }
        TriedOne(CONVS, start, used, n);
        n := n + 1;
      }
    }

    /** The session in the table that waits for the CONNECT of `src`, whatever order the table
        is walked in. */
    method FindPending(src: Addr) returns (conv: nat, reused: bool)
      requires Keyed(Abs())
      ensures reused ==> Waits(Abs(), conv, src) && conv < CONVS
      ensures !reused ==> forall c :: !Waits(Abs(), c, src)
    {
      conv, reused := 0, false;
      var rest := sessions.Keys;
      while rest != {}
        invariant rest <= sessions.Keys
        invariant forall c :: c in sessions && c !in rest ==> !IsPending(sessions[c], src)
        decreases |rest|
      {
        var c :| c in rest;
        rest := rest - {c};
        var o := sessions[c];
        if o.dying || o.fd >= 0 {
          continue;
        }
        if o.client == src {
          conv, reused := o.conv, true;
          return;
        }
      }
    }

    /** The answer to a REGISTER: its bytes, and the number the endpoint reads from them. */
    method SendRegistered(src: Addr, conv: nat) returns (out: Bytes)
      requires conv < CONVS
      modifies os`log
      ensures |out| == 5 && out[0] == 5 && ReadRegistered(out) == Answer(conv)
      ensures out[1] as int * 0x100_0000 + out[2] as int * 0x1_0000 + out[3] as int * 256 + out[4] as int == conv
      ensures os.log == old(os.log) + [Answered(src, conv)]
    {
      out := RegisteredWire(conv);
      ReadWritten(conv, []);
      RegisteredLayout(conv);
      assert out + [] == out;
      os.log := os.log + [Answered(src, ReadRegistered(out).conv)];
    }

    /** A session under a new number, and its answer. */
    method NewSession(src: Addr)
      requires nextConv < CONVS && |sessions| < CONVS
      modifies this`sessions, this`nextConv, this`ticket, os`armed, os`log
      ensures Abs() == Add(old(Abs()), src)
    {
      hide Probe, FirstFree;
      var conv := AllocConv();
      sessions := sessions[conv := Session(conv, src, src, NOWHERE, -1, false, 0, [])];
      SyncTimer();
      assert conv in sessions;
      os.log := os.log + [Issued(conv, src)];
      var _ := SendRegistered(src, conv);
    }

    method RegisterClient(src: Addr)
      requires Inv(Abs()) && |sessions| < CONVS
      modifies this`sessions, this`nextConv, this`ticket, os`armed, os`log
      ensures Inv(Abs()) && Abs() == Register(old(Abs()), src)
    {
      hide Inv, Register, Keyed, Waits;
      ghost var st := Abs();
      NumberInRange(st);
      RegisterInv(st, src);
      var conv, reused := FindPending(src);
      assert Abs() == st;
      RegisterCases(st, src, conv, reused);
      if reused {
        var _ := SendRegistered(src, conv);
      } else {
        NewSession(src);
      }
    }

    /** The session of a datagram, if its number is known and its sender owns it. */
    method Lookup(src: Addr, conv: nat) returns (found: bool)
      ensures found <==> Owns(Abs(), src, conv)
    {
      if conv !in sessions {
        return false;
      }
      return sessions[conv].client == src;
    }

    /** A socket for the session's target; nothing changes if there is none to be had. */
    method OpenTarget(c: nat) returns (fd: int)
      requires c in sessions && sessions[c].fd == -1
      modifies this`sessions, this`fdToSession, os`open, os`log, os`sockets
      ensures fd == -1 || (fd >= 0 && fd !in old(os.open))
      ensures os.sockets == old(os.sockets) + [fd]
      ensures Abs() == if fd == -1 then old(Abs()) else Open(old(Abs()), c, fd, old(sessions[c].target))
    {
      fd := os.Socket();
      sessions := sessions[c := sessions[c].(fd := fd)];
      if fd < 0 {
        assert sessions == old(sessions);
        return;
      }
      fdToSession := fdToSession[fd := c];
      os.log := os.log + [Opened(c, fd, sessions[c].target)];
    }

    method ByFd(fd: int) returns (found: bool, c: nat)
      ensures found <==> fd in fdToSession
      ensures found ==> c == fdToSession[fd]
    {
      found, c := fd in fdToSession, 0;
      if found {
        c := fdToSession[fd];
      }
    }

    method MarkDying(c: nat)
      requires c in sessions && sessions[c].conv == c
      modifies this`sessions, this`toErase, os`log
      ensures Abs() == Mark(old(Abs()), c)
    {
      sessions := sessions[c := sessions[c].(dying := true)];
      toErase := toErase + [sessions[c].conv];
      os.log := os.log + [Marked(c)];
    }

    /** Closes a session's descriptor and takes it out of the index and the table. */
    method Erase(c: nat)
      modifies this`sessions, this`fdToSession, os`open, os`log
      ensures Abs() == Drop(old(Abs()), c)
    {
      if c !in sessions {
        return;
      }
      var s := sessions[c];
      if s.fd >= 0 {
        fdToSession := fdToSession - {s.fd};
        os.Close(s.fd);
      }
      sessions := sessions - {c};
      os.log := os.log + [Dropped(c, s.fd)];
    }

    /** Everything on the list goes, and nothing else. */
    method FlushTeardown()
      requires Inv(Abs())
      modifies this`sessions, this`fdToSession, this`toErase, os`open, os`armed, os`log
      ensures Inv(Abs()) && Abs() == Flush(old(Abs()))
      ensures sessions == Survivors(old(sessions)) && toErase == []
      ensures os.open == old(os.open) - Closing(old(sessions))
      ensures fdToSession == old(fdToSession) - Closing(old(sessions))
    {
      hide Inv, Tables, Course, Survivors, Synced, Drop, Flush, Closing;
      ghost var start := Abs();
      TeardownReady(start);
      FlushInv(start);
      FlushCloses(start);
      var i := 0;
      assert Abs().(toErase := toErase[i..]) == start;
      while i < |toErase|
        invariant 0 <= i <= |toErase| && toErase == start.toErase
        invariant Flush(Abs().(toErase := toErase[i..])) == Flush(start)
      {
        FlushTurn(Abs(), i);
        Erase(toErase[i]);
        i := i + 1;
      }
      assert toErase[i..] == [];
      toErase := [];
      FlushDone(Abs());
      SyncTimer();
    }

    /** Marks what has been idle for too long, at most once a second. */
    method SweepIdle(now: nat) returns (ghost order: seq<nat>)
      requires Keyed(Abs()) && now == os.clock
      modifies this`sessions, this`toErase, this`lastIdleSweep, os`log
      ensures Enumerates(old(Abs()), now, idleMs, order)
      ensures Abs() == Sweep(old(Abs()), now, idleMs, order)
    {
      ghost var start := Abs();
      if Elapsed(now, lastIdleSweep) < SWEEP_MS {
        order := Victims(start, now, idleMs, sessions.Keys);
        assert start.sessions.Keys - sessions.Keys == {};
        ChosenAll(start, now, idleMs, order);
        return;
      }
      lastIdleSweep := now;
      order := [];
      var rest := sessions.Keys;
      hide Keyed, Elapsed, MarkAll, Chosen;
      ChosenNone(start, now, idleMs);
      while rest != {}
        invariant rest <= start.sessions.Keys && Keyed(start)
        invariant Chosen(start, now, idleMs, rest, order)
        invariant Abs() == MarkAll(Swept(start, now), order)
        decreases |rest|
      {
        var c :| c in rest;
        SweepTurn(start, now, idleMs, rest, order, c);
        rest := rest - {c};
        var s := sessions[c];
        if !s.dying && Elapsed(now, s.lastActive) > idleMs {
          MarkDying(c);
          order := order + [c];
        }
      }
      ChosenAll(start, now, idleMs, order);
    }
  }

  /** Erasing the session at place `i` is the first turn of tearing down the rest of the list. */
  lemma FlushTurn(st: State, i: nat)
    requires i < |st.toErase|
    ensures Flush(st.(toErase := st.toErase[i..]))
         == Flush(Drop(st, st.toErase[i]).(toErase := st.toErase[i + 1..]))
  {
    var rest := st.toErase[i..];
    assert rest[1..] == st.toErase[i + 1..];
    assert DropFirst(st.(toErase := rest)) == Drop(st, st.toErase[i]).(toErase := st.toErase[i + 1..]);
  }

  lemma FlushDone(st: State)
    requires st.toErase == []
    ensures Flush(st) == st.(ticking := |st.sessions| > 0)
  {
  }

  /** `order` lists, each once, the idle sessions among those walked already. */
  ghost predicate Chosen(st: State, now: nat, idleMs: nat, rest: set<nat>, order: seq<nat>) {
    && (forall i, j :: 0 <= i < j < |order| ==> order[i] != order[j])
    && (forall c :: c in order <==> c in st.sessions && c !in rest && Idle(st.sessions[c], now, idleMs))
  }

  lemma ChosenNone(st: State, now: nat, idleMs: nat)
    ensures Chosen(st, now, idleMs, st.sessions.Keys, [])
    ensures MarkAll(Swept(st, now), []) == Swept(st, now)
  {
  }

  lemma ChosenAll(st: State, now: nat, idleMs: nat, order: seq<nat>)
    requires Chosen(st, now, idleMs, {}, order)
    ensures Enumerates(st, now, idleMs, order)
  {
  }

  lemma ChosenMarkable(st: State, now: nat, idleMs: nat, rest: set<nat>, order: seq<nat>)
    requires Chosen(st, now, idleMs, rest, order)
    ensures Markable(Swept(st, now), order)
  {
  }

  /** One turn of the walk: session `c` is still as it was, and if it is idle it comes next. */
  lemma SweepTurn(st: State, now: nat, idleMs: nat, rest: set<nat>, order: seq<nat>, c: nat)
    requires Chosen(st, now, idleMs, rest, order) && c in rest && c in st.sessions && Keyed(st)
    ensures var st' := MarkAll(Swept(st, now), order);
            c in st'.sessions && st'.sessions[c] == st.sessions[c] && st.sessions[c].conv == c
    ensures if Idle(st.sessions[c], now, idleMs)
            then Chosen(st, now, idleMs, rest - {c}, order + [c])
              && MarkAll(Swept(st, now), order + [c]) == Mark(MarkAll(Swept(st, now), order), c)
            else Chosen(st, now, idleMs, rest - {c}, order)
  {
    ChosenMarkable(st, now, idleMs, rest, order);
    hide Elapsed;
    MarkAllEffect(Swept(st, now), order, c);
    if Idle(st.sessions[c], now, idleMs) {
      MarkAllSnoc(Swept(st, now), order, c);
    }
  }

  lemma {:induction false} MarkAllSnoc(st: State, order: seq<nat>, c: nat)
    requires c in st.sessions
    ensures c in MarkAll(st, order).sessions
    ensures MarkAll(st, order + [c]) == Mark(MarkAll(st, order), c)
    decreases |order|
  {
    hide Mark;
    var all := order + [c];
    if order == [] {
      assert all[1..] == [];
    } else {
      assert all[1..] == order[1..] + [c];
      var st1 := if order[0] in st.sessions then Mark(st, order[0]) else st;
      MarkKeys(st, order[0]);
      MarkAllSnoc(st1, order[1..], c);
    }
  }

  lemma MarkKeys(st: State, c: nat)
    ensures c in st.sessions ==> Mark(st, c).sessions.Keys == st.sessions.Keys
  {
  }

  /** Some order in which the idle sessions among `among` could be walked. */
  lemma {:induction false} Victims(st: State, now: nat, idleMs: nat, among: set<nat>) returns (order: seq<nat>)
    requires among <= st.sessions.Keys
    ensures Chosen(st, now, idleMs, st.sessions.Keys - among, order)
    decreases |among|
  {
    hide Idle;
    if among == {} {
      order := [];
    } else {
      var c :| c in among;
      order := Victims(st, now, idleMs, among - {c});
      if Idle(st.sessions[c], now, idleMs) { order := order + [c]; }
    }
  }

  lemma RegisterCases(st: State, src: Addr, c: nat, reused: bool)
    requires Inv(st)
    requires if reused then Waits(st, c, src) else forall d :: !Waits(st, d, src)
    ensures Register(st, src) == if reused then Emit(st, Answered(src, c)) else Add(st, src)
  {
    if reused { RegisterAgain(st, src, c, c); }
  }
}
