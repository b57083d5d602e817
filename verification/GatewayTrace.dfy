/** What an observer sees of the gateway: sessions issued, opened, marked and dropped, and
    payload relayed.  `Lawful` says which traces are right; the theorems say what that means
    for a single relayed payload. */
module GatewayTrace {
  import opened TunnelProtocol

  datatype Addr = Addr(ip: nat, port: nat)

  datatype Event =
    | Issued(conv: nat, client: Addr)
    | Answered(client: Addr, conv: nat)
    | Opened(conv: nat, fd: int, target: Addr)
    | Marked(conv: nat)
    | Dropped(conv: nat, fd: int)
    | ToTarget(conv: nat, fd: int, target: Addr, from: Addr, payload: Bytes)
    | ToClient(conv: nat, fd: int, client: Addr, payload: Bytes)

  /** A session as the trace tells it; `fd` is -1 until it is opened. */
  datatype Live = Live(client: Addr, fd: int, target: Addr, dying: bool)

  type Table = map<nat, Live>

  const NOWHERE: Addr := Addr(0, 0)

  function Effect(m: Table, e: Event): Table {
    match e
    case Issued(c, client) => m[c := Live(client, -1, NOWHERE, false)]
    case Opened(c, fd, target) => if c in m then m[c := m[c].(fd := fd, target := target)] else m
    case Marked(c) => if c in m then m[c := m[c].(dying := true)] else m
    case Dropped(c, _) => m - {c}
    case _ => m
  }

  /** May `e` happen when the sessions are `m`? */
  ghost predicate Allowed(m: Table, e: Event) {
    match e
    case Issued(c, _) => c !in m
    case Answered(client, c) => c in m && m[c].client == client && m[c].fd == -1 && !m[c].dying
    case Opened(c, fd, _) =>
      && c in m && m[c].fd == -1 && !m[c].dying && fd >= 0
      && forall d :: d in m ==> m[d].fd != fd
    case Marked(c) => c in m && !m[c].dying
    case Dropped(c, fd) => c in m && m[c].dying && m[c].fd == fd
    case ToTarget(c, fd, target, from, _) => fd >= 0 && c in m && m[c] == Live(from, fd, target, false)
    case ToClient(c, fd, client, _) =>
      fd >= 0 && c in m && m[c].client == client && m[c].fd == fd && !m[c].dying
  }

  function Replay(log: seq<Event>): Table {
    if log == [] then map[] else Effect(Replay(log[..|log| - 1]), log[|log| - 1])
  }

  ghost predicate Lawful(log: seq<Event>) {
    forall i :: 0 <= i < |log| ==> Allowed(Replay(log[..i]), log[i])
  }

  lemma LawfulExtend(log: seq<Event>, e: Event)
    requires Lawful(log) && Allowed(Replay(log), e)
    ensures Lawful(log + [e]) && Replay(log + [e]) == Effect(Replay(log), e)
  {
    var log' := log + [e];
    assert log'[..|log|] == log;
    forall i | 0 <= i < |log'| ensures Allowed(Replay(log'[..i]), log'[i]) {
      assert log'[..i] == log[..i];
      if i < |log| { assert log'[i] == log[i]; } else { assert log[..i] == log; }
    }
  }

  // ------------------------------------------------------------------ what a lawful trace means

  /** Between places `a` and `b` nothing happens to the session `c` that ends or replaces it. */
  ghost predicate Undisturbed(log: seq<Event>, a: nat, b: nat, c: nat) {
    forall i :: a < i < b <= |log| ==>
      !(log[i].Issued? && log[i].conv == c) && !(log[i].Dropped? && log[i].conv == c)
  }

  ghost predicate NotMarked(log: seq<Event>, a: nat, b: nat, c: nat) {
    forall i :: a < i < b <= |log| ==> !(log[i].Marked? && log[i].conv == c)
  }

  /** Between places `a` and `b` the descriptor `fd` is neither given out again nor given up. */
  ghost predicate Held(log: seq<Event>, a: nat, b: nat, fd: int) {
    forall i :: a < i < b <= |log| ==>
      !(log[i].Opened? && log[i].fd == fd) && !(log[i].Dropped? && log[i].fd == fd)
  }

  lemma LastStep(log: seq<Event>)
    requires Lawful(log) && log != []
    ensures var n := |log| - 1;
            && Lawful(log[..n]) && Allowed(Replay(log[..n]), log[n])
            && Replay(log) == Effect(Replay(log[..n]), log[n])
  {
    LawfulPrefix(log, |log| - 1);
  }

  /** One more event that is neither of the unwanted kind keeps the quiet. */
  lemma StillQuiet(log: seq<Event>, a: nat, c: nat, fd: int)
    requires log != [] && a < |log| - 1
    ensures var n := |log| - 1;
            var init, e := log[..n], log[n];
            && (Undisturbed(init, a, n, c) && !(e.Issued? && e.conv == c) && !(e.Dropped? && e.conv == c)
                ==> Undisturbed(log, a, |log|, c))
            && (NotMarked(init, a, n, c) && !(e.Marked? && e.conv == c) ==> NotMarked(log, a, |log|, c))
            && (Held(init, a, n, fd) && !(e.Opened? && e.fd == fd) && !(e.Dropped? && e.fd == fd)
                ==> Held(log, a, |log|, fd))
  {
    var n := |log| - 1;
    assert forall i :: 0 <= i < n ==> log[..n][i] == log[i];
  }

  /** The event that issued a live session, and what has not happened since. */
  lemma {:induction false} IssuedBefore(log: seq<Event>, c: nat) returns (a: nat)
    requires Lawful(log) && c in Replay(log)
    ensures a < |log| && log[a] == Issued(c, Replay(log)[c].client)
    ensures Undisturbed(log, a, |log|, c)
    ensures !Replay(log)[c].dying ==> NotMarked(log, a, |log|, c)
  {
    var n := |log| - 1;
    LastStep(log);
    var init, e := log[..n], log[n];
    hide Replay, Lawful, Undisturbed, NotMarked, Held;
    if e.Issued? && e.conv == c {
      a := n;
      NothingYet(log, c, -1);
    } else {
      a := IssuedBefore(init, c);
      StillQuiet(log, a, c, -1);
    }
  }

  lemma NothingYet(log: seq<Event>, c: nat, fd: int)
    requires log != []
    ensures Undisturbed(log, |log| - 1, |log|, c) && NotMarked(log, |log| - 1, |log|, c)
        && Held(log, |log| - 1, |log|, fd)
  {
  }

  lemma LawfulPrefix(log: seq<Event>, n: nat)
    requires Lawful(log) && n <= |log|
    ensures Lawful(log[..n])
  {
    forall i | 0 <= i < n ensures Allowed(Replay(log[..n][..i]), log[..n][i]) {
      assert log[..n][..i] == log[..i];
    }
  }

  /** The event that opened the descriptor of a live session, and what has not happened since. */
  lemma {:induction false} OpenedBefore(log: seq<Event>, c: nat) returns (b: nat)
    requires Lawful(log) && c in Replay(log) && Replay(log)[c].fd >= 0
    ensures b < |log| && log[b] == Opened(c, Replay(log)[c].fd, Replay(log)[c].target)
    ensures Undisturbed(log, b, |log|, c)
    ensures Held(log, b, |log|, Replay(log)[c].fd)
  {
    var n := |log| - 1;
    LastStep(log);
    var init, e := log[..n], log[n];
    hide Replay, Lawful, Undisturbed, NotMarked, Held;
    if e.Opened? && e.conv == c {
      b := n;
      NothingYet(log, c, e.fd);
    } else {
      b := OpenedBefore(init, c);
      StillQuiet(log, b, c, Replay(log)[c].fd);
      if e.Dropped? && e.conv != c {
        DistinctFds(init, c, e.conv);
      }
    }
  }

  /** Live sessions never share a descriptor. */
  lemma {:induction false} DistinctFds(log: seq<Event>, c: nat, d: nat)
    requires Lawful(log) && c in Replay(log) && d in Replay(log) && c != d
    requires Replay(log)[c].fd >= 0
    ensures Replay(log)[c].fd != Replay(log)[d].fd
  {
    var n := |log| - 1;
    LastStep(log);
    var m := Replay(log[..n]);
    hide Replay, Lawful;
    if c in m && d in m && m[c].fd >= 0 {
      DistinctFds(log[..n], c, d);
    }
    if c in m && d in m && m[d].fd >= 0 {
      DistinctFds(log[..n], d, c);
    }
  }

  /** Payload on a target descriptor: it came from the endpoint the session was issued to, it
      goes to the address fixed when the descriptor was opened, and since then the session has
      neither been marked nor dropped nor has its descriptor changed hands. */
  lemma RelayedToTarget(log: seq<Event>, i: nat) returns (a: nat, b: nat)
    requires Lawful(log) && i < |log| && log[i].ToTarget?
    ensures a < b < i
    ensures log[a] == Issued(log[i].conv, log[i].from)
    ensures log[b] == Opened(log[i].conv, log[i].fd, log[i].target)
    ensures Undisturbed(log, a, i, log[i].conv) && NotMarked(log, a, i, log[i].conv)
    ensures Held(log, b, i, log[i].fd)
  {
    a, b := Provenance(log, i, log[i].conv);
  }

  /** Payload that arrived on a target descriptor goes back only to the endpoint the session
      was issued to, while the session is neither marked nor dropped. */
  lemma RelayedToClient(log: seq<Event>, i: nat) returns (a: nat, b: nat)
    requires Lawful(log) && i < |log| && log[i].ToClient?
    ensures a < b < i
    ensures log[a] == Issued(log[i].conv, log[i].client)
    ensures log[b].Opened? && log[b].conv == log[i].conv && log[b].fd == log[i].fd
    ensures Undisturbed(log, a, i, log[i].conv) && NotMarked(log, a, i, log[i].conv)
    ensures Held(log, b, i, log[i].fd)
  {
    a, b := Provenance(log, i, log[i].conv);
  }

  lemma {:induction false} Provenance(log: seq<Event>, i: nat, c: nat) returns (a: nat, b: nat)
    requires Lawful(log) && i <= |log| && c in Replay(log[..i])
    requires Replay(log[..i])[c].fd >= 0 && !Replay(log[..i])[c].dying
    ensures a < b < i
    ensures log[a] == Issued(c, Replay(log[..i])[c].client)
    ensures log[b] == Opened(c, Replay(log[..i])[c].fd, Replay(log[..i])[c].target)
    ensures Undisturbed(log, a, i, c) && NotMarked(log, a, i, c) && Held(log, b, i, Replay(log[..i])[c].fd)
  {
    var init := log[..i];
    LawfulPrefix(log, i);
    a := IssuedBefore(init, c);
    b := OpenedBefore(init, c);
    assert forall j :: 0 <= j < i ==> init[j] == log[j];
  }
}
