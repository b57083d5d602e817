/** Runs of the scheduler's sleep set: coroutines go to sleep and are woken, in any order and by a
    clock that may be set.  As long as it is not set back by a millisecond or more, nobody is ever
    lost; `Scheduler.LostSleeper` shows that a clock that is loses a sleeper. */
module SleepRuns {
  import opened TreeLayout
  import opened SleepOrder
  import opened SleepTree
  import opened Circle
  import opened Scheduler

  /** A call of the scheduler, with the reading of the clock. */
  datatype Call<+P> = Sleep(co: P, msecs: Word, now: Word) | Wake(now: Word)

  /** The key of each coroutine's last sleep, and who sleeps under which key. */
  datatype State<P> = State(last: map<P, nat>, sleepers: set<(P, nat)>)

  ghost function KeysIn<P>(s: set<(P, nat)>): set<nat> {
    set x | x in s :: x.1
  }

  /** The earliest sleeper, and it is due. */
  ghost predicate Takes<P>(s: set<(P, nat)>, now: nat, x: (P, nat)) {
    x in s && x.1 <= now && forall y :: y in s ==> x.1 <= y.1
  }

  ghost predicate Next<P>(birth: Word, st: State<P>, call: Call<P>, st': State<P>) {
    match call
    case Sleep(co, msecs, now) =>
      && co in st.last && co in st'.last && st'.last == st.last[co := st'.last[co]]
      && Slept(co, st.last[co], st'.last[co], DueAfter(Elapsed(birth, now), msecs), msecs == 0,
               st.sleepers, KeysIn(st.sleepers), st'.sleepers, KeysIn(st'.sleepers))
    case Wake(now) =>
      && st'.last == st.last
      && if forall x :: x in st.sleepers ==> x.1 > Elapsed(birth, now) then st'.sleepers == st.sleepers
         else exists x :: x in st.sleepers && Takes(st.sleepers, Elapsed(birth, now), x)
                          && st'.sleepers == st.sleepers - {x}
  }

  ghost predicate IsRun<P>(birth: Word, states: seq<State<P>>, calls: seq<Call<P>>) {
    && |states| == |calls| + 1
    && forall i :: 0 <= i < |calls| ==> Next(birth, states[i], calls[i], states[i + 1])
  }

  // ------------------------------------------------------------------ what steady runs keep

  /** A sleeper sleeps under the key of its last sleep and is the only one who ever slept last under
      that key.  Whoever does not sleep has a key the clock has passed: at most `seen`. */
  ghost predicate Settled<P>(st: State<P>, seen: nat) {
    && (forall x :: x in st.sleepers ==> x.0 in st.last && st.last[x.0] == x.1)
    && (forall x, p :: x in st.sleepers && p in st.last && st.last[p] == x.1 ==> x.0 == p)
    && (forall p :: p in st.last ==> (p, st.last[p]) in st.sleepers || st.last[p] <= seen)
  }

  lemma {:induction false} FewKeys<P>(keys: set<nat>, last: map<P, nat>)
    requires forall k :: k in keys ==> exists p :: p in last && last[p] == k
    ensures |keys| <= |last|
    decreases |keys|
  {
    if keys != {} {
      var k :| k in keys;
      var p :| p in last && last[p] == k;
      var rest := last - {p};
      forall k' | k' in keys - {k} ensures exists q :: q in rest && rest[q] == k' {
        var q :| q in last && last[q] == k';
        assert q in rest && rest[q] == k';
      }
      FewKeys(keys - {k}, rest);
      assert rest.Keys == last.Keys - {p} && |rest| == |rest.Keys| && |last| == |last.Keys|;
    }
  }

  lemma SettledKeys<P>(st: State<P>, seen: nat)
    requires Settled(st, seen)
    ensures |KeysIn(st.sleepers)| <= |st.last|
  {
    forall k | k in KeysIn(st.sleepers) ensures exists p :: p in st.last && st.last[p] == k {
      var x :| x in st.sleepers && x.1 == k;
      assert x.0 in st.last;
    }
    FewKeys(KeysIn(st.sleepers), st.last);
  }

  /** The sleeps callers ask for: of some time, and away from the wrap of the 64-bit clock. */
  predicate Ordinary<P>(birth: Word, n: nat, call: Call<P>) {
    call.Sleep? ==> call.msecs != 0 && Elapsed(birth, call.now) + call.msecs * 1000 + n < U64
  }

  /** The clock may be set, but a sleep never begins a millisecond or more before an earlier wake. */
  predicate Steady<P>(birth: Word, calls: seq<Call<P>>) {
    forall i, j :: 0 <= i < j < |calls| && calls[i].Wake? && calls[j].Sleep? ==>
      Elapsed(birth, calls[i].now) < Elapsed(birth, calls[j].now) + 1000
  }

  lemma DueIn(since: Word, msecs: Word)
    requires since + msecs * 1000 < U64
    ensures DueAfter(since, msecs) == since + msecs * 1000
  {
  }

  /** Going to sleep evicts nobody else, and the key is not before the deadline. */
  lemma SleepKeeps<P>(birth: Word, st: State<P>, call: Call<P>, st': State<P>, seen: nat)
    requires Settled(st, seen) && call.Sleep? && Next(birth, st, call, st') && Ordinary(birth, |st.last|, call)
    requires seen < Elapsed(birth, call.now) + 1000
    ensures Settled(st', seen) && st'.last.Keys == st.last.Keys
    ensures (call.co, st'.last[call.co]) in st'.sleepers
    ensures Elapsed(birth, call.now) + call.msecs * 1000 <= st'.last[call.co]
    ensures forall x :: x in st.sleepers && x.0 != call.co ==> x in st'.sleepers
  {
    hide FirstFree, Elapsed, DueAfter, Settled, Without;
    var since, co := Elapsed(birth, call.now), call.co;
    DueIn(since, call.msecs);
    SettledKeys(st, seen);
    LeastAfterDeadline(co, st.last[co], st'.last[co], DueAfter(since, call.msecs), st.sleepers,
        KeysIn(st.sleepers), st'.sleepers, KeysIn(st'.sleepers), 0);
    KeyIsNew(st, co, st'.last[co], seen);
    Resettled(st, co, st'.last[co], st', seen);
  }

  /** Whoever sleeps under a key nobody else had last leaves everything settled. */
  lemma Resettled<P>(st: State<P>, co: P, key: nat, st': State<P>, seen: nat)
    requires Settled(st, seen) && co in st.last && forall p :: p in st.last && p != co ==> st.last[p] != key
    requires st'.last == st.last[co := key] && st'.sleepers == Without(st.sleepers, st.last[co]) + {(co, key)}
    ensures Settled(st', seen) && forall x :: x in st.sleepers && x.0 != co ==> x in st'.sleepers
  {
    forall x | x in st'.sleepers && x != (co, key) ensures x in st.sleepers && x.0 != co {
    }
    forall p | p in st'.last && p != co ensures (p, st'.last[p]) in st'.sleepers || st'.last[p] <= seen {
      assert (p, st.last[p]) in st.sleepers ==> (p, st.last[p]) in Without(st.sleepers, st.last[co]);
    }
  }

  /** A key that is free once `co` has left, and beyond `seen`, is nobody else's last key. */
  lemma KeyIsNew<P>(st: State<P>, co: P, key: nat, seen: nat)
    requires Settled(st, seen) && co in st.last && key > seen && key !in KeysIn(st.sleepers) - {st.last[co]}
    ensures forall p :: p in st.last && p != co ==> st.last[p] != key
  {
    forall p | p in st.last && p != co ensures st.last[p] != key {
      assert (p, st.last[p]) in st.sleepers ==> st.last[p] in KeysIn(st.sleepers);
    }
  }

  /** Waking takes at most one, who is due, and then nobody who is due earlier sleeps. */
  lemma WakeKeeps<P>(birth: Word, st: State<P>, call: Call<P>, st': State<P>, seen: nat)
    requires Settled(st, seen) && call.Wake? && Next(birth, st, call, st')
    ensures Settled(st', if seen < Elapsed(birth, call.now) then Elapsed(birth, call.now) else seen)
    ensures forall x :: x in st.sleepers && x !in st'.sleepers ==> Takes(st.sleepers, Elapsed(birth, call.now), x)
  {
    hide Elapsed;
  }

  // ------------------------------------------------------------------ whole runs

  /** The latest reading at which somebody may have been woken. */
  function Seen<P>(birth: Word, calls: seq<Call<P>>): nat {
    if calls == [] then 0
    else
      var before, call := Seen(birth, calls[..|calls| - 1]), calls[|calls| - 1];
      if call.Wake? && before < Elapsed(birth, call.now) then Elapsed(birth, call.now) else before
  }

  lemma {:induction false} SeenBelow<P>(birth: Word, calls: seq<Call<P>>, n: nat)
    requires Steady(birth, calls) && n < |calls| && calls[n].Sleep?
    ensures Seen(birth, calls[..n]) < Elapsed(birth, calls[n].now) + 1000
  {
    SeenUpTo(birth, calls, n, n);
  }

  lemma {:induction false} SeenUpTo<P>(birth: Word, calls: seq<Call<P>>, n: nat, i: nat)
    requires Steady(birth, calls) && i <= n < |calls| && calls[n].Sleep?
    ensures Seen(birth, calls[..i]) < Elapsed(birth, calls[n].now) + 1000
  {
    if i > 0 {
      assert calls[..i][..i - 1] == calls[..i - 1];
      SeenUpTo(birth, calls, n, i - 1);
    }
  }

  /** A run from a settled state, of ordinary calls, by a steady clock. */
  ghost predicate Trusted<P>(birth: Word, states: seq<State<P>>, calls: seq<Call<P>>) {
    && IsRun(birth, states, calls) && Settled(states[0], 0) && Steady(birth, calls)
    && forall i :: 0 <= i < |calls| ==> Ordinary(birth, |states[0].last|, calls[i])
  }

  lemma {:induction false} RunSettled<P>(birth: Word, states: seq<State<P>>, calls: seq<Call<P>>, n: nat)
    requires Trusted(birth, states, calls) && n <= |calls|
    ensures Settled(states[n], Seen(birth, calls[..n])) && states[n].last.Keys == states[0].last.Keys
    decreases n
  {
    hide Settled, Next, Ordinary, Steady, Elapsed;
    if n == 0 {
      assert calls[..0] == [];
    } else {
      var m := n - 1;
      RunSettled(birth, states, calls, m);
      assert calls[..n][..m] == calls[..m];
      assert Next(birth, states[m], calls[m], states[n]);
      SameSize(states[m].last, states[0].last);
      if calls[m].Sleep? {
        SeenBelow(birth, calls, m);
        SleepKeeps(birth, states[m], calls[m], states[n], Seen(birth, calls[..m]));
      } else {
        WakeKeeps(birth, states[m], calls[m], states[n], Seen(birth, calls[..m]));
        SameLast(birth, states[m], calls[m], states[n]);
      }
    }
  }

  lemma SameSize<P>(a: map<P, nat>, b: map<P, nat>)
    requires a.Keys == b.Keys
    ensures |a| == |b|
  {
    assert |a| == |a.Keys| && |b| == |b.Keys|;
  }

  lemma SameLast<P>(birth: Word, st: State<P>, call: Call<P>, st': State<P>)
    requires Next(birth, st, call, st') && call.Wake?
    ensures st'.last == st.last
  {
  }

  /** Over every such run, whoever leaves the set is due and woken in turn, or goes to sleep again. */
  lemma NobodyLost<P>(birth: Word, states: seq<State<P>>, calls: seq<Call<P>>, i: nat, x: (P, nat))
    requires Trusted(birth, states, calls) && i < |calls| && x in states[i].sleepers && x !in states[i + 1].sleepers
    ensures if calls[i].Sleep? then x.0 == calls[i].co
            else Takes(states[i].sleepers, Elapsed(birth, calls[i].now), x)
  {
    hide Settled, Next, Ordinary, Steady, Elapsed, Seen;
    RunSettled(birth, states, calls, i);
    assert Next(birth, states[i], calls[i], states[i + 1]);
    SameSize(states[i].last, states[0].last);
    if calls[i].Sleep? {
      SeenBelow(birth, calls, i);
      SleepKeeps(birth, states[i], calls[i], states[i + 1], Seen(birth, calls[..i]));
    } else {
      WakeKeeps(birth, states[i], calls[i], states[i + 1], Seen(birth, calls[..i]));
    }
  }

  /** Over every such run, whoever goes to sleep stays in the set until place `j`, or until call `m`
      before it wakes it, and that is never before its time is over. */
  lemma SleepsThrough<P>(birth: Word, states: seq<State<P>>, calls: seq<Call<P>>, i: nat, j: nat)
      returns (m: nat)
    requires Trusted(birth, states, calls) && i < j <= |calls| && calls[i].Sleep?
    requires forall r :: i < r < j && calls[r].Sleep? ==> calls[r].co != calls[i].co
    ensures i < m <= j && calls[i].co in states[i + 1].last
    ensures var x := (calls[i].co, states[i + 1].last[calls[i].co]);
            && (forall r :: i < r <= m ==> x in states[r].sleepers)
            && (m < j ==> calls[m].Wake? && Takes(states[m].sleepers, Elapsed(birth, calls[m].now), x))
    ensures m < j ==> Elapsed(birth, calls[i].now) + calls[i].msecs * 1000 <= Elapsed(birth, calls[m].now)
  {
    hide Settled, Ordinary, Steady, Elapsed, Seen, Slept;
    RunSettled(birth, states, calls, i);
    assert Next(birth, states[i], calls[i], states[i + 1]);
    SameSize(states[i].last, states[0].last);
    SeenBelow(birth, calls, i);
    SleepKeeps(birth, states[i], calls[i], states[i + 1], Seen(birth, calls[..i]));
    m := i + 1;
    var x := (calls[i].co, states[i + 1].last[calls[i].co]);
    while m < j && x in states[m + 1].sleepers
      invariant i < m <= j && forall r :: i < r <= m ==> x in states[r].sleepers
    {
      m := m + 1;
    }
    if m < j { NobodyLost(birth, states, calls, m, x); }
  }

  // ------------------------------------------------------------------ the scheduler makes such runs

  /** The state of the scheduler, as far as the coroutines `all` are concerned. */
  ghost function Night(sched: Schedule, all: set<Coroutine>): State<Ref>
    reads sched.sleeping, all
  {
    State(map c: Ref | c in all :: c.sleepUsecs, sched.sleeping.Sleepers())
  }

  ghost predicate Watched(sched: Schedule, all: set<Coroutine>)
    reads sched.sleeping, Refs(sched.sleeping.tree)
  {
    sched.sleeping.Valid() && Refs(sched.sleeping.tree) <= all && |all| < U64
  }

  /** At the start nobody sleeps, and nobody has slept. */
  ghost predicate Unslept(sched: Schedule, all: set<Coroutine>)
    reads sched.sleeping, all
  {
    sched.sleeping.Sleepers() == {} && forall c :: c in all ==> c.sleepUsecs == 0
  }

  lemma StartSettled(sched: Schedule, all: set<Coroutine>)
    requires Unslept(sched, all)
    ensures Settled(Night(sched, all), 0)
  {
    hide SleepOrder.Sleepers;
  }

  lemma NightSize(sched: Schedule, all: set<Coroutine>)
    ensures |Night(sched, all).last| == |all|
  {
    var last := Night(sched, all).last;
    assert last.Keys == all && |last| == |last.Keys|;
  }

  lemma SameKeys(t: Shape)
    ensures SleepOrder.Keys(t) == KeysIn(SleepOrder.Sleepers(t))
  {
    forall k | k in SleepOrder.Keys(t) ensures k in KeysIn(SleepOrder.Sleepers(t)) {
      var i :| 0 <= i < |RedBlack.Items(t)| && RedBlack.Items(t)[i].1 == k;
      assert RedBlack.Items(t)[i] in SleepOrder.Sleepers(t);
    }
  }

  /** There are no more keys in use than coroutines. */
  lemma RoomToSleep(sched: Schedule, all: set<Coroutine>)
    requires Watched(sched, all)
    ensures |sched.sleeping.Keys()| < U64 && sched.sleeping.Keys() == KeysIn(sched.sleeping.Sleepers())
  {
    hide Elements, KeysOf, Refs;
    var last, keys := Night(sched, all).last, sched.sleeping.Keys();
    SameKeys(sched.sleeping.tree);
    forall k | k in keys ensures exists p :: p in last && last[p] == k {
      var x :| x in sched.sleeping.Sleepers() && x.1 == k;
      sched.sleeping.Asleep(x);
      assert x.0 in last && last[x.0] == k;
    }
    FewKeys(keys, last);
    NightSize(sched, all);
  }

  lemma KeyOfEach<P>(s: set<(P, nat)>)
    ensures forall x :: x in s ==> x.1 in KeysIn(s)
  {
  }

  method SleepCall(sched: Schedule, all: set<Coroutine>, co: Coroutine, msecs: Word, now: Word)
    requires Watched(sched, all) && co in all
    modifies sched.sleeping, all
    ensures Watched(sched, all)
    ensures Next<Ref>(sched.birth, old(Night(sched, all)), Sleep(co, msecs, now), Night(sched, all))
  {
    hide SleepTree.Valid, Refs, Slept, Elements, KeysOf, Elapsed, DueAfter;
    RoomToSleep(sched, all);
    sched.SleepDown(co, msecs, now);
    RoomToSleep(sched, all);
  }

  method WakeCall(sched: Schedule, all: set<Coroutine>, now: Word) returns (co: Ref)
    requires Watched(sched, all)
    modifies sched.sleeping, all
    ensures Watched(sched, all)
    ensures Next<Ref>(sched.birth, old(Night(sched, all)), Wake(now), Night(sched, all))
    ensures co == null ==> Night(sched, all) == old(Night(sched, all))
    ensures co != null ==> Takes(old(sched.sleeping.Sleepers()), Elapsed(sched.birth, now), (co, co.sleepUsecs))
  {
    hide SleepTree.Valid, Refs, Elements, KeysOf, Elapsed, KeysIn;
    RoomToSleep(sched, all);
    ghost var s, keys := sched.sleeping.Sleepers(), sched.sleeping.Keys();
    co := sched.Expired(now);
    KeyOfEach(s);
    assert co == null ==> sched.sleeping.Keys() == keys;
  }

  /** Any calls, in any order and with any readings of the clock, are a run.  From a new scheduler,
      ordinary calls by a steady clock are one that loses nobody. */
  method Drive(sched: Schedule, all: set<Coroutine>, calls: seq<Call<Coroutine>>)
      returns (ghost states: seq<State<Ref>>)
    requires Watched(sched, all) && forall i :: 0 <= i < |calls| && calls[i].Sleep? ==> calls[i].co in all
    modifies sched.sleeping, all
    ensures Watched(sched, all) && IsRun<Ref>(sched.birth, states, calls)
    ensures states[0] == old(Night(sched, all)) && states[|calls|] == Night(sched, all)
    ensures old(Unslept(sched, all)) && Steady<Ref>(sched.birth, calls)
            && (forall i :: 0 <= i < |calls| ==> Ordinary<Ref>(sched.birth, |all|, calls[i]))
            ==> Trusted<Ref>(sched.birth, states, calls)
  {
    hide Watched, Night, Next, Settled, Ordinary, Unslept;
    if Unslept(sched, all) { StartSettled(sched, all); }
    NightSize(sched, all);
    states := [Night(sched, all)];
    var i := 0;
    while i < |calls|
      invariant 0 <= i <= |calls| && Watched(sched, all) && |states| == i + 1
      invariant states[0] == old(Night(sched, all)) && states[i] == Night(sched, all)
      invariant forall r :: 0 <= r < i ==> Next<Ref>(sched.birth, states[r], calls[r], states[r + 1])
    {
      if calls[i].Sleep? {
        SleepCall(sched, all, calls[i].co, calls[i].msecs, calls[i].now);
      } else {
        var _ := WakeCall(sched, all, calls[i].now);
      }
      states := states + [Night(sched, all)];
      i := i + 1;
    }
  }
}
