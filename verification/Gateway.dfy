/** The gateway's handlers: datagrams of the tunnel, messages KCP puts together from them, and
    replies of the targets.  Each run of a handler is a run of the session machine, and returns
    to the pool what it took from it. */
module Gateway {
  import opened TunnelProtocol
  import opened Circle
  import opened GatewayTrace
  import opened GatewayModel
  import opened Options
  import opened GatewayRuns
  import opened GatewayDispatch
  import opened GatewayEffects
  import opened SessionManager
  import Pool = MemoryPool

  class Gateway {
    const manager: SessionManager
    const pool: Pool.MemoryPool

    constructor (m: SessionManager, p: Pool.MemoryPool)
      ensures manager == m && pool == p
    {
      manager, pool := m, p;
    }

    ghost function Abs(): State
      reads manager, manager.os
    {
      manager.Abs()
    }

    /** A session gets its target and, if there is one to be had, a socket for it. */
    method TakeTarget(c: nat, addr: Addr) returns (fd: int, now: nat)
      requires c in manager.sessions && manager.sessions[c].fd == -1
      modifies manager`sessions, manager`fdToSession
      modifies manager.os`open, manager.os`clock, manager.os`log, manager.os`sockets
      ensures manager.os.sockets == old(manager.os.sockets) + [fd]
      ensures now >= old(manager.os.clock) && (fd == -1 || (fd >= 0 && fd !in old(manager.os.open)))
      ensures var s' := old(manager.sessions[c]).(target := addr, lastActive := now);
              var st := Amend(Tick(old(Abs()), now), c, s');
              Abs() == if fd == -1 then st else Open(st, c, fd, addr)
    {
      manager.sessions := manager.sessions[c := manager.sessions[c].(target := addr)];
      now := manager.os.Now();
      manager.sessions := manager.sessions[c := manager.sessions[c].(lastActive := now)];
      assert manager.sessions == old(manager.sessions)[c := old(manager.sessions[c]).(target := addr,
          lastActive := now)];
      fd := manager.OpenTarget(c);
    }

    /** The CONNECT of a session that has no target yet. */
    method Connect(c: nat, route: Bytes) returns (gone: bool, ghost env: Env)
      requires c in manager.sessions && manager.sessions[c].conv == c && manager.sessions[c].fd == -1
      modifies manager`sessions, manager`fdToSession, manager`toErase
      modifies manager.os`open, manager.os`kvFd, manager.os`clock, manager.os`log, manager.os`asked, manager.os`sockets
      ensures EnvAllowed(old(Abs()), env)
      ensures (Abs(), gone) == HandleConnect(old(Abs()), c, env)
      ensures manager.os.asked == old(manager.os.asked) + [(route, env.resolved)]
      ensures env.resolved.Some? ==> manager.os.sockets == old(manager.os.sockets) + [env.sock]
    {
      var addr := manager.os.Resolve(route);
      env := Env(manager.os.kvFd, addr, -1, manager.os.clock);
      match addr
      case None =>
        manager.MarkDying(c);
        gone := true;
      case Some(a) =>
        var fd, now := TakeTarget(c, a);
        env := env.(sock := fd, now := now);
        gone := fd < 0;
    }

    /** The route of a CONNECT, read into a buffer that no route can overrun, and used as text. */
    method ReadRoute(body: Bytes) returns (route: Bytes)
      requires Parse(body).Packet? && Parse(body).packet.Connect?
      ensures route == Text(Parse(body).packet.route)
    {
      var buf := new Byte[ROUTE_MAX + 1];
      var rl := ReadConnectRoute(body, buf);
      route := Text(buf[..rl]);
    }

    /** One message of session `c`; `gone` says that the handler gives the session up.  A CONNECT
        that opens the session asks for its route and acts on the answer. */
    method HandleTunnelMsg(c: nat, m: Message) returns (gone: bool, ghost env: Env)
      requires Inv(Abs()) && c in manager.sessions
      modifies manager`sessions, manager`fdToSession, manager`toErase
      modifies manager.os`open, manager.os`kvFd, manager.os`clock, manager.os`log, manager.os`asked, manager.os`sockets
      ensures EnvAllowed(old(Abs()), env)
      ensures (Abs(), gone) == Handle(old(Abs()), c, m, env) && Dealt(old(Abs()), c, m, env, Abs(), gone)
      ensures forall r :: Begins(m.body, Packet.Connect(r)) && old(manager.sessions[c]).fd < 0 ==>
                && manager.os.asked == old(manager.os.asked) + [(Text(r), env.resolved)]
                && (env.resolved.Some? ==> manager.os.sockets == old(manager.os.sockets) + [env.sock])
    {
      hide Inv, Parse, HandleConnect, Dealt, Begins;
      ghost var st := Abs();
      BeginsOnce(m.body);
      var s := manager.sessions[c];
      FdKnown(st, c);
      OwnNumber(st, c);
      gone, env := false, Env(manager.os.kvFd, None, -1, manager.os.clock);
      StillAllowed(Abs());
      match Parse(m.body) {
        case Malformed =>
        case Packet(Connect(_)) =>
          if s.fd < 0 {
            var route := ReadRoute(m.body);
            gone, env := Connect(c, route);
          }
        case Packet(Data(payload)) =>
          if s.fd >= 0 {
            var now := manager.os.Now();
            manager.sessions := manager.sessions[c := s.(lastActive := now)];
            env := env.(now := now);
            manager.os.log := manager.os.log + [ToTarget(c, s.fd, s.target, m.from, payload)];
          }
        case Packet(Close) =>
          manager.MarkDying(c);
          gone := true;
        case Packet(Other(_)) =>
      }
      HandleDone(st, c, m, env);
    }

    /** `ikcp_recv` of a message that fits the block, and its handling. */
    method ReceiveOne(c: nat) returns (got: nat, gone: bool, ghost env: Env)
      requires Inv(Abs()) && c in manager.sessions && manager.sessions[c].inbox != []
      modifies manager`sessions, manager`fdToSession, manager`toErase
      modifies manager.os`open, manager.os`kvFd, manager.os`clock, manager.os`log, manager.os`asked, manager.os`sockets
      ensures got == |old(manager.sessions[c]).inbox[0].body| && (got == 0 ==> !gone)
      ensures EnvAllowed(old(Abs()), env) && (Abs(), gone) == Receive(old(Abs()), c, env)
    {
      ghost var st := Abs();
      PopInv(st, c);
      StillAllowed(st);
      hide Inv, Handle;
      var s := manager.sessions[c];
      var m := s.inbox[0];
      manager.sessions := manager.sessions[c := s.(inbox := s.inbox[1..])];
      got, gone, env := |m.body|, false, Env(manager.os.kvFd, None, -1, manager.os.clock);
      if got > 0 {
        gone, env := HandleTunnelMsg(c, m);
      }
    }

    /** Handles what KCP has put together, until there is a reason to stop; `got` is the last
        answer of `ikcp_recv`. */
    method Drain(c: nat) returns (gone: bool, got: int, ghost steps: seq<Step>)
      requires Inv(Abs()) && c in manager.sessions && !manager.sessions[c].dying
      modifies manager`sessions, manager`fdToSession, manager`toErase
      modifies manager.os`open, manager.os`kvFd, manager.os`clock, manager.os`log, manager.os`asked, manager.os`sockets
      ensures Inv(Abs()) && Leads(old(Abs()), steps, Abs()) && manager.sessions.Keys == old(manager.sessions.Keys)
      ensures Drains(old(Abs()), c, steps, got) && (gone <==> got > 0)
      ensures old(manager.sessions[c]).fd >= 0 ==>
                var s := old(manager.sessions[c]);
                && |steps| == Taken(s.inbox) <= |s.inbox|
                && manager.os.log == old(manager.os.log) + Traffic(c, s, s.inbox[..|steps|])
                && c in manager.sessions && manager.sessions[c].inbox == s.inbox[|steps|..]
    {
      hide Inv, Leads, Receive, EnvAllowed, Drains, Ongoing, Traffic, Taken;
      ghost var start := Abs();
      gone, got, steps := false, -1, [];
      LeadsNowhere(start);
      OngoingNone(start, c);
      while true
        invariant Inv(Abs()) && Leads(start, steps, Abs()) && manager.sessions.Keys == start.sessions.Keys
        invariant c in manager.sessions && !manager.sessions[c].dying && !gone && Ongoing(start, c, steps, Abs())
        decreases |manager.sessions[c].inbox|
      {
        var inbox := manager.sessions[c].inbox;
        ghost var st := Abs();
        if inbox == [] || |inbox[0].body| > BLOCK {
          got := if inbox == [] then -1 else -3;
          DrainsNone(st, c, got);
          OngoingThen(start, c, steps, st, [], got);
          assert steps + [] == steps;
          break;
        }
        ghost var env;
        got, gone, env := ReceiveOne(c);
        ReceiveStep(st, c, env);
        LeadsOn(start, steps, st, [OnMessage(c, env)], Abs());
        if got == 0 || gone {
          DrainsLast(st, c, OnMessage(c, env), got);
          OngoingThen(start, c, steps, st, [OnMessage(c, env)], got);
        } else {
          OngoingOn(start, c, steps, st, OnMessage(c, env));
        }
        steps := steps + [OnMessage(c, env)];
        if got == 0 || gone {
          break;
        }
      }
      if start.sessions[c].fd >= 0 {
        DrainRelays(start, c, steps, got);
        LeadsTo(start, steps, Abs());
      }
    }

    /** `ikcp_input`: whatever messages the datagram completes join the queue. */
    method Input(src: Addr, c: nat, bodies: seq<Bytes>) returns (ghost fed: Step)
      requires Inv(Abs()) && Owns(Abs(), src, c) && !manager.sessions[c].dying
      modifies manager`sessions, manager.os`clock
      ensures Inv(Abs()) && Leads(old(Abs()), [fed], Abs()) && manager.sessions.Keys == old(manager.sessions.Keys)
      ensures !manager.sessions[c].dying && Fed(fed, src, c, bodies)
      ensures Enabled(old(Abs()), fed) && Apply(old(Abs()), fed) == Abs()
      ensures |manager.sessions[c].inbox| == |old(manager.sessions[c]).inbox| + |bodies|
      ensures old(manager.sessions[c]).inbox <= manager.sessions[c].inbox
      ensures forall i :: 0 <= i < |bodies| ==>
                manager.sessions[c].inbox[|old(manager.sessions[c]).inbox| + i] == Message(src, bodies[i])
    {
      hide Inv, Leads;
      ghost var st := Abs();
      var now := manager.os.Now();
      var s := manager.sessions[c];
      manager.sessions := manager.sessions[c := s.(lastActive := now, inbox := s.inbox + Tagged(src, bodies))];
      FeedStep(st, src, c, bodies, now);
      fed := OnDatagram(src, c, bodies, now);
    }

    method Settle(c: nat) returns (ghost steps: seq<Step>)
      requires Inv(Abs()) && c in manager.sessions
      modifies manager`sessions, manager.os`clock
      ensures Inv(Abs()) && Leads(old(Abs()), steps, Abs()) && manager.sessions.Keys == old(manager.sessions.Keys)
      ensures steps == [OnDrained(c, manager.os.clock)] && manager.sessions[c].lastActive == manager.os.clock
    {
      hide Inv, Leads;
      ghost var st := Abs();
      var now := manager.os.Now();
      manager.sessions := manager.sessions[c := manager.sessions[c].(lastActive := now)];
      SettleStep(st, c, now);
      steps := [OnDrained(c, now)];
    }

    ghost predicate Ready()
      reads manager, manager.os, pool, pool.next
    {
      Inv(Abs()) && PoolReady()
    }

    lemma Settled()
      requires Ready()
      ensures Inv(Abs()) && PoolReady()
    {
    }

    /** All blocks are in the pool, and there were never more than two out. */
    ghost predicate PoolReady()
      reads pool, pool.next
    {
      pool.Valid() && pool.taken == {} && pool.peak <= 2
    }

    /** Handles the messages of session `c` in a block of its own. */
    method DrainInBlock(c: nat) returns (gone: bool, ghost got: int, ghost steps: seq<Step>)
      requires Ready() && c in manager.sessions && !manager.sessions[c].dying
      modifies manager`sessions, manager`fdToSession, manager`toErase
      modifies manager.os`open, manager.os`kvFd, manager.os`clock, manager.os`log, manager.os`asked, manager.os`sockets
      modifies pool`freeHead, pool`free, pool`taken, pool`peak, pool.next
      ensures Ready() && Leads(old(Abs()), steps, Abs()) && manager.sessions.Keys == old(manager.sessions.Keys)
      ensures pool.free == old(pool.free) && Drains(old(Abs()), c, steps, got) && (gone <==> got > 0)
    {
      hide Inv, Leads, Drains;
      var tmsg := pool.Alloc();
      gone, got, steps := Drain(c);
      pool.Free(tmsg);
    }

    /** What a datagram for a session does: feed KCP, handle what comes out, note the time. */
    method Deliver(src: Addr, c: nat, bodies: seq<Bytes>, pkt: int) returns (ghost steps: seq<Step>)
      requires Inv(Abs()) && Owns(Abs(), src, c) && !manager.sessions[c].dying
      requires pool.Valid() && pkt != Pool.NULL && pool.taken == {pkt} && pool.peak <= 2
      modifies manager`sessions, manager`fdToSession, manager`toErase
      modifies manager.os`open, manager.os`kvFd, manager.os`clock, manager.os`log, manager.os`asked, manager.os`sockets
      modifies pool`freeHead, pool`free, pool`taken, pool`peak, pool.next
      ensures Ready() && Leads(old(Abs()), steps, Abs()) && manager.sessions.Keys == old(manager.sessions.Keys)
      ensures pool.free == [pkt] + old(pool.free) && Delivered(old(Abs()), src, c, bodies, steps)
    {
      hide Inv, Leads, Fed, Enabled, Apply, Drains, Delivered;
      ghost var st := Abs();
      ghost var fed := Input(src, c, bodies);
      ghost var st1 := Abs();
      pool.Free(pkt);
      var gone;
      ghost var got, drained;
      gone, got, drained := DrainInBlock(c);
      LeadsOn(st, [fed], st1, drained, Abs());
      steps := [fed] + drained;
      if gone {
        DeliveredGone(st, src, c, bodies, fed, drained, got);
      } else {
        ghost var st2 := Abs();
        ghost var note := Settle(c);
        LeadsOn(st, steps, st2, note, Abs());
        DeliveredNoted(st, src, c, bodies, fed, drained, got, manager.os.clock);
        steps := [fed] + drained + note;
      }
    }

    /** A datagram in block `pkt`: a REGISTER, a KCP segment of a session, or neither. */
    method HandlePacket(src: Addr, data: Bytes, bodies: seq<Bytes>, pkt: int) returns (ghost steps: seq<Step>)
      requires Inv(Abs()) && |manager.sessions| < CONVS
      requires pool.Valid() && pkt != Pool.NULL && pool.taken == {pkt} && pool.peak <= 2
      modifies manager`sessions, manager`fdToSession, manager`toErase, manager`nextConv, manager`ticket
      modifies manager.os`open, manager.os`kvFd, manager.os`clock, manager.os`log, manager.os`asked, manager.os`sockets
      modifies manager.os`armed
      modifies pool`freeHead, pool`free, pool`taken, pool`peak, pool.next
      ensures Ready() && Leads(old(Abs()), steps, Abs()) && |manager.sessions| <= |old(manager.sessions)| + 1
      ensures pool.free == [pkt] + old(pool.free)
      ensures Handled(old(Abs()), src, data, bodies, steps)
    {
      hide Inv, Leads, Delivered, GetConv;
      ghost var st := Abs();
      LeadsNowhere(st);
      steps := [];
      if |data| >= KCP_OVERHEAD {
        var conv := GetConv(data);
        var found := manager.Lookup(src, conv);
        if found && !manager.sessions[conv].dying {
          steps := Deliver(src, conv, bodies, pkt);
          assert |manager.sessions.Keys| == |old(manager.sessions).Keys|;
          return;
        }
      } else if |data| == 1 && data[0] == PACKET_REGISTER {
        manager.RegisterClient(src);
        RegisterStep(st, src);
        steps := [OnRegister(src)];
      }
      pool.Free(pkt);
    }

    /** One datagram of the tunnel socket, cut to the size of a block. */
    method HandleOne(d: Datagram) returns (ghost steps: seq<Step>)
      requires Ready() && |manager.sessions| < CONVS
      modifies manager`sessions, manager`fdToSession, manager`toErase, manager`nextConv, manager`ticket
      modifies manager.os`open, manager.os`kvFd, manager.os`clock, manager.os`log, manager.os`asked, manager.os`sockets
      modifies manager.os`armed
      modifies pool`freeHead, pool`free, pool`taken, pool`peak, pool.next
      ensures Ready() && Leads(old(Abs()), steps, Abs()) && |manager.sessions| <= |old(manager.sessions)| + 1
      ensures pool.free == old(pool.free) && Handled(old(Abs()), d.src, Clip(d.data), d.completes, steps)
    {
      hide Inv, Leads, Handled;
      var pkt := pool.Alloc();
      steps := HandlePacket(d.src, Clip(d.data), d.completes, pkt);
    }

    /** Everything that waits in the tunnel socket, datagram by datagram. */
    method HandleTunnelDatagram(arrivals: seq<Datagram>) returns (ghost legs: seq<Leg>)
      requires Ready() && |manager.sessions| + |arrivals| <= CONVS
      modifies manager`sessions, manager`fdToSession, manager`toErase, manager`nextConv, manager`ticket
      modifies manager.os`open, manager.os`kvFd, manager.os`clock, manager.os`log, manager.os`asked, manager.os`sockets
      modifies manager.os`armed
      modifies pool`freeHead, pool`free, pool`taken, pool`peak, pool.next
      ensures Ready() && HandledAll(old(Abs()), arrivals, legs) && EndOf(old(Abs()), legs) == Abs()
      ensures |manager.sessions| <= |old(manager.sessions)| + |arrivals| && pool.free == old(pool.free)
    {
      hide Leads, Ready, HandledAll, Handled, EndOf;
      ghost var st := Abs();
      legs := [];
      NoneHandled(st);
      var i := 0;
      assert arrivals[..0] == [];
      while i < |arrivals|
        invariant 0 <= i <= |arrivals| && Ready() && HandledAll(st, arrivals[..i], legs) && EndOf(st, legs) == Abs()
        invariant |manager.sessions| <= |st.sessions| + i && pool.free == old(pool.free)
      {
        ghost var st1 := Abs();
        ghost var steps := HandleOne(arrivals[i]);
        OneHandled(st, arrivals, i, legs, steps, Abs());
        legs := legs + [Leg(st1, steps, Abs())];
        i := i + 1;
      }
      assert arrivals[..i] == arrivals;
    }

    /** A reply in a DATA packet.  The packet fits a block, and the other end of the tunnel parses
        it back to the reply. */
    method Wrap(payload: Bytes) returns (pkt: Bytes)
      requires |payload| <= BLOCK - DATA_HEAD_LEN
      ensures |pkt| <= BLOCK && Parse(pkt) == Packet(Data(payload))
    {
      hide Parse, Wire;
      var tmsg := new Byte[BLOCK];
      var n := PackData(tmsg, payload);
      ParseWire(Data(payload), []);
      assert tmsg[..n] + [] == tmsg[..n];
      pkt := tmsg[..n];
    }

    /** Wraps a reply in a DATA packet and sends it to the session's endpoint.  The packet fits
        a block, and the endpoint parses it back to the reply. */
    method Relay(c: nat, fd: int, payload: Bytes) returns (ghost steps: seq<Step>)
      requires Inv(Abs()) && |payload| <= BLOCK - DATA_HEAD_LEN
      requires fd in manager.fdToSession && manager.fdToSession[fd] == c
      requires c in manager.sessions && !manager.sessions[c].dying
      modifies manager`sessions, manager.os`clock, manager.os`log
      ensures Inv(Abs()) && Leads(old(Abs()), steps, Abs())
      ensures manager.sessions.Keys == old(manager.sessions.Keys) && !manager.sessions[c].dying
      ensures |steps| == 1 && steps[0].OnReply? && steps[0].fd == fd && steps[0].payload == payload
      ensures manager.sessions == old(manager.sessions)[c := old(manager.sessions[c]).(lastActive := manager.os.clock)]
      ensures manager.os.log == old(manager.os.log) + [ToClient(c, fd, old(manager.sessions[c]).client, payload)]
    {
      hide Inv, Leads;
      ghost var st := Abs();
      var now := manager.os.Now();
      manager.sessions := manager.sessions[c := manager.sessions[c].(lastActive := now)];
      var pkt := Wrap(payload);
      manager.os.log := manager.os.log + [ToClient(c, fd, manager.sessions[c].peer, Parse(pkt).packet.payload)];
      RelayStep(st, c, fd, payload, now);
      SessionOfFd(st, fd);
      steps := [OnReply(fd, payload, now)];
    }

    /** One reply, read into one block and wrapped in a second, cut to what a packet can hold. */
    method RelayInBlocks(c: nat, fd: int, reply: Bytes) returns (ghost steps: seq<Step>)
      requires Ready() && fd in manager.fdToSession && manager.fdToSession[fd] == c
      requires c in manager.sessions && !manager.sessions[c].dying
      modifies manager`sessions, manager.os`clock, manager.os`log
      modifies pool`freeHead, pool`free, pool`taken, pool`peak, pool.next
      ensures Ready() && Leads(old(Abs()), steps, Abs()) && pool.free == old(pool.free)
      ensures manager.sessions.Keys == old(manager.sessions.Keys) && !manager.sessions[c].dying
      ensures |steps| == 1 && Replied(steps[0], fd, reply)
      ensures manager.sessions[c].client == old(manager.sessions[c]).client
      ensures exists e :: Echoes(e, c, fd, old(manager.sessions[c]).client, reply)
                          && manager.os.log == old(manager.os.log) + [e]
    {
      hide Inv, Leads;
      var rply := pool.Alloc();
      var tmsg := pool.Alloc();
      steps := Relay(c, fd, Cut(reply));
      pool.Free(tmsg);
      pool.Free(rply);
    }

    /** Everything that waits in a target's socket. */
    method HandleTargetReply(c: nat, fd: int, replies: seq<Bytes>) returns (ghost steps: seq<Step>)
      requires Ready() && fd in manager.fdToSession && manager.fdToSession[fd] == c && c in manager.sessions
      modifies manager`sessions, manager.os`clock, manager.os`log
      modifies pool`freeHead, pool`free, pool`taken, pool`peak, pool.next
      ensures Ready() && Leads(old(Abs()), steps, Abs())
      ensures manager.sessions.Keys == old(manager.sessions.Keys) && pool.free == old(pool.free)
      ensures if old(manager.sessions[c]).dying then steps == [] else RepliedAll(fd, replies, steps)
      ensures EchoedAll(old(manager.os.log), manager.os.log, c, fd, old(manager.sessions[c]).client,
                        if old(manager.sessions[c]).dying then [] else replies)
    {
      hide Leads, Ready, Replied, Echoes, EchoedAll;
      NoneEchoed(manager.os.log, c, fd, manager.sessions[c].client);
      ghost var st := Abs();
      LeadsNowhere(st);
      steps := [];
      if manager.sessions[c].dying {
        return;
      }
      var i := 0;
      assert replies[..0] == [];
      while i < |replies|
        invariant 0 <= i <= |replies| && Ready() && Leads(st, steps, Abs())
        invariant manager.sessions.Keys == st.sessions.Keys && !manager.sessions[c].dying
        invariant pool.free == old(pool.free)
        invariant |steps| == i && forall j :: 0 <= j < i ==> Replied(steps[j], fd, replies[j])
        invariant manager.sessions[c].client == st.sessions[c].client
        invariant EchoedAll(st.log, manager.os.log, c, fd, st.sessions[c].client, replies[..i])
      {
        ghost var st1 := Abs();
        ghost var more := RelayInBlocks(c, fd, replies[i]);
        LeadsOn(st, steps, st1, more, Abs());
        OneEchoed(st.log, st1.log, manager.os.log, c, fd, st.sessions[c].client, replies, i);
        steps := steps + more;
        i := i + 1;
      }
      assert replies[..i] == replies;
    }
  }

  /** The event sends the reply to the endpoint: all of it, or the first 2045 bytes of a longer one. */
  predicate Echoes(e: Event, c: nat, fd: int, client: Addr, reply: Bytes) {
    && e.ToClient? && e.conv == c && e.fd == fd && e.client == client
    && e.payload <= reply && |e.payload| == if |reply| <= 2045 then |reply| else 2045
  }

  /** One such event per reply, in order, and nothing else. */
  ghost predicate EchoedAll(log: seq<Event>, log': seq<Event>, c: nat, fd: int, client: Addr, replies: seq<Bytes>) {
    && log <= log' && |log'| == |log| + |replies|
    && forall i :: 0 <= i < |replies| ==> Echoes(log'[|log| + i], c, fd, client, replies[i])
  }

  lemma NoneEchoed(log: seq<Event>, c: nat, fd: int, client: Addr)
    ensures EchoedAll(log, log, c, fd, client, [])
  {
  }

  lemma OneEchoed(log: seq<Event>, log1: seq<Event>, log2: seq<Event>, c: nat, fd: int, client: Addr,
                  replies: seq<Bytes>, i: nat)
    requires i < |replies| && EchoedAll(log, log1, c, fd, client, replies[..i])
    requires exists e :: Echoes(e, c, fd, client, replies[i]) && log2 == log1 + [e]
    ensures EchoedAll(log, log2, c, fd, client, replies[..i + 1])
  {
    hide Echoes;
    var upTo := replies[..i + 1];
    forall j | 0 <= j < i ensures Echoes(log2[|log| + j], c, fd, client, upTo[j]) {
      assert log2[|log| + j] == log1[|log| + j] && upTo[j] == replies[..i][j];
    }
  }

  lemma OwnNumber(st: State, c: nat)
    requires Inv(st) && c in st.sessions
    ensures st.sessions[c].conv == c
  {
    assert Keyed(st);
  }

  lemma LeadsTo(st: State, steps: seq<Step>, st': State)
    requires Leads(st, steps, st')
    ensures IsRun(st, steps) && After(st, steps) == st'
  {
  }

  lemma RegisterStep(st: State, src: Addr)
    requires Inv(st) && RoomForMore(st)
    ensures Leads(st, [OnRegister(src)], Register(st, src))
    ensures |Register(st, src).sessions| <= |st.sessions| + 1
  {
    hide Leads, Inv, Register;
    LeadsByOne(st, OnRegister(src));
    RegisterGrows(st, src);
  }

  lemma RegisterGrows(st: State, src: Addr)
    ensures |Register(st, src).sessions| <= |st.sessions| + 1
  {
    hide Probe, FirstFree;
    var c := NewConv(st);
    var added := st.sessions[c := Session(c, src, src, NOWHERE, -1, false, 0, [])];
    assert added.Keys == st.sessions.Keys + {c};
    assert |added| == |added.Keys| && |st.sessions| == |st.sessions.Keys|;
  }

  lemma RelayStep(st: State, c: nat, fd: int, payload: Bytes, now: nat)
    requires Inv(st) && fd in st.byFd && st.byFd[fd] == c && c in st.sessions && !st.sessions[c].dying
        && st.clock <= now
    ensures var st' := Emit(Touch(st, c, now), ToClient(c, fd, st.sessions[c].peer, payload));
            && Inv(st') && Leads(st, [OnReply(fd, payload, now)], st')
            && st'.sessions.Keys == st.sessions.Keys && !st'.sessions[c].dying
  {
    hide Inv, Leads;
    ReplyInv(st, fd, payload, now);
    LeadsByOne(st, OnReply(fd, payload, now));
  }

  lemma FeedStep(st: State, src: Addr, c: nat, bodies: seq<Bytes>, now: nat)
    requires Inv(st) && Owns(st, src, c) && !st.sessions[c].dying && st.clock <= now
    ensures var st' := Feed(st, src, c, bodies, now);
            && Inv(st') && Leads(st, [OnDatagram(src, c, bodies, now)], st')
            && st'.sessions.Keys == st.sessions.Keys && !st'.sessions[c].dying
  {
    hide Inv, Leads;
    FeedInv(st, src, c, bodies, now);
    LeadsByOne(st, OnDatagram(src, c, bodies, now));
  }

  lemma SettleStep(st: State, c: nat, now: nat)
    requires Inv(st) && c in st.sessions && st.clock <= now
    ensures var st' := Touch(st, c, now);
            Inv(st') && Leads(st, [OnDrained(c, now)], st') && st'.sessions.Keys == st.sessions.Keys
  {
    hide Inv, Leads;
    TouchInv(st, c, now);
    LeadsByOne(st, OnDrained(c, now));
  }

  lemma PopInv(st: State, c: nat)
    requires Inv(st) && c in st.sessions && st.sessions[c].inbox != []
    ensures Inv(Amend(st, c, st.sessions[c].(inbox := st.sessions[c].inbox[1..])))
  {
    var s := st.sessions[c];
    assert SameIdentity(s, s.(inbox := s.inbox[1..])) by { assert Keyed(st); }
    assert s.lastActive <= st.clock by { assert Timed(st); }
    hide Inv, SameIdentity;
    AmendInv(st, c, s.(inbox := s.inbox[1..]));
  }

  /** Receiving a message is a step of the session machine that shortens the queue. */
  lemma ReceiveStep(st: State, c: nat, env: Env)
    requires Inv(st) && c in st.sessions && !st.sessions[c].dying && st.sessions[c].inbox != []
    requires |st.sessions[c].inbox[0].body| <= BLOCK && EnvAllowed(st, env)
    ensures var r := Receive(st, c, env);
            && Inv(r.0) && Leads(st, [OnMessage(c, env)], r.0)
            && r.0.sessions.Keys == st.sessions.Keys && c in r.0.sessions
            && |r.0.sessions[c].inbox| < |st.sessions[c].inbox|
            && (!r.1 ==> !r.0.sessions[c].dying)
  {
    hide Inv, Leads, EnvAllowed, Handle;
    ReceiveInv(st, c, env);
    LeadsByOne(st, OnMessage(c, env));
    var s := st.sessions[c];
    var st1 := Amend(st, c, s.(inbox := s.inbox[1..]));
    assert st1.sessions.Keys == st.sessions.Keys;
    HandleKeeps(st1, c, s.inbox[0], env);
  }

  /** The key-value client may keep the descriptor it has. */
  lemma StillAllowed(st: State)
    requires Inv(st)
    ensures EnvAllowed(st, Env(st.kvFd, None, -1, st.clock))
  {
  }
}
