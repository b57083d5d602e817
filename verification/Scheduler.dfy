/** The scheduler's set of sleeping coroutines: going to sleep, waking up, and how long epoll
    may block. */
module Scheduler {
  import opened RedBlack
  import opened TreeLayout
  import opened SleepOrder
  import opened SleepTree
  import opened Circle

  const U64: nat := 0x1_0000_0000_0000_0000

  type Word = w: int | 0 <= w < U64

  const DEFAULT_TIMEOUT: Word := 3_000_000

  /** Who is left once the holder of key `k` is removed. */
  ghost function Without<P>(s: set<(P, nat)>, k: nat): set<(P, nat)> {
    set x | x in s && x.1 != k
  }

  /** Microseconds from `birth` to `now`, on 64-bit words. */
  function Elapsed(birth: Word, now: Word): (r: Word)
    ensures birth + r == now || birth + r == now + U64
  {
    (now - birth) % U64
  }

  /** When a sleep of `msecs` milliseconds that begins at `since` is over. */
  function DueAfter(since: Word, msecs: Word): (r: Word)
    ensures since + msecs * 1000 < U64 ==> r == since + msecs * 1000
  {
    (since + msecs * 1000 % U64) % U64
  }

  /** Removing by key loses nobody but `co`. */
  ghost predicate SparesOthers<P>(s: set<(P, nat)>, k: nat, co: P) {
    forall x :: x in s && x.0 != co ==> x in Without(s, k)
  }

  /** Whoever goes to sleep is first removed by the key of its last sleep.  That evicts no other
      sleeper if and only if the key is free or its own. */
  lemma StaleKey<P>(t: Tree<P, nat>, k: nat, co: P)
    requires Ascending(Items(t))
    ensures SparesOthers(Sleepers(t), k, co) <==> k !in Keys(t) || (co, k) in Sleepers(t)
  {
    if k in Keys(t) {
      var i :| 0 <= i < |Items(t)| && Items(t)[i].1 == k;
      assert Items(t)[i] in Sleepers(t);
      if (co, k) in Sleepers(t) { OneOwner(t, (co, k), Items(t)[i]); }
    } else {
      forall x | x in Sleepers(t) ensures x.1 != k { KeyTaken(t, x); }
    }
  }

  /** The one holder of a key, or nobody. */
  lemma WithoutHolder<P>(t: Tree<P, nat>, x: (P, nat))
    requires Ascending(Items(t)) && x in Sleepers(t)
    ensures Without(Sleepers(t), x.1) == Sleepers(t) - {x}
  {
    forall y | y in Sleepers(t) && y != x ensures y.1 != x.1 {
      if y.1 == x.1 { OneOwner(t, x, y); }
    }
  }

  lemma WithoutNobody<P>(t: Tree<P, nat>, k: nat)
    requires k !in Keys(t)
    ensures Without(Sleepers(t), k) == Sleepers(t)
  {
    forall y | y in Sleepers(t) ensures y.1 != k { KeyTaken(t, y); }
  }

  /** What going to sleep does: the holder of the old key leaves, and unless the sleep takes no
      time `co` joins under the first free key from the deadline on. */
  ghost predicate Slept<P>(co: P, oldKey: nat, newKey: nat, deadline: Word, noTime: bool,
                           s: set<(P, nat)>, keys: set<nat>, s': set<(P, nat)>, keys': set<nat>)
  {
    if noTime then newKey == deadline && s' == Without(s, oldKey) && keys' == keys - {oldKey}
    else && newKey == FirstFree(U64, deadline, keys - {oldKey})
         && s' == Without(s, oldKey) + {(co, newKey)} && keys' == keys - {oldKey} + {newKey}
  }

  /** Away from the wrap the new key is not before the deadline, nobody has it, and all keys from
      the deadline up to it are taken. */
  lemma LeastAfterDeadline<P>(co: P, oldKey: nat, newKey: nat, deadline: Word,
                              s: set<(P, nat)>, keys: set<nat>, s': set<(P, nat)>, keys': set<nat>, x: nat)
    requires Slept(co, oldKey, newKey, deadline, false, s, keys, s', keys') && deadline + |keys| < U64
    ensures deadline <= newKey && newKey !in keys - {oldKey}
    ensures deadline <= x < newKey ==> x in keys && x != oldKey
  {
    var used := keys - {oldKey};
    assert keys <= used + {oldKey};
    Smaller(used, keys);
    FirstFreeIsLeast(U64, deadline, used, x);
  }

  lemma Smaller<T>(a: set<T>, b: set<T>)
    requires a <= b
    ensures |a| <= |b|
  {
    assert b == a + (b - a);
  }

  // ------------------------------------------------------------------ the time epoll may block

  /** Seconds and nanoseconds, as the scheduler computes them from microseconds. */
  function TimespecOf(usecs: nat): (nat, nat) {
    var sec := usecs / 1_000_000;
    (sec, if sec != 0 then usecs % 1000 * 1000 else usecs * 1000)
  }

  /** The wait never exceeds the gap to the next sleeper.  It is the whole gap if and only if
      the gap is below a second or its fraction of a second is below a millisecond.  What a longer
      wait falls short by are the whole milliseconds of that fraction. */
  lemma NeverOversleeps(usecs: nat)
    ensures var (sec, nsec) := TimespecOf(usecs);
            && sec * 1_000_000_000 + nsec <= usecs * 1000 && nsec < 1_000_000_000
            && (sec * 1_000_000_000 + nsec == usecs * 1000 <==> usecs < 1_000_000 || usecs % 1_000_000 < 1000)
            && (usecs >= 1_000_000 ==>
                  usecs * 1000 - (sec * 1_000_000_000 + nsec) == usecs % 1_000_000 / 1000 * 1_000_000)
  {
    var q, r := usecs / 1_000_000, usecs % 1_000_000;
    assert usecs == 1_000_000 * q + r;
    assert usecs % 1000 == r % 1000 && r % 1000 <= r;
  }

  ghost predicate IsLeast(keys: set<nat>, k: nat) {
    k in keys && forall x :: x in keys ==> k <= x
  }

  /** The gap from `since` to the least key; none if that is due, three seconds if there is none. */
  ghost predicate IsGap(keys: set<nat>, since: nat, usecs: nat) {
    if keys == {} then usecs == DEFAULT_TIMEOUT
    else exists k: nat :: IsLeast(keys, k) && usecs == if k > since then k - since else 0
  }

  class Schedule {
    const sleeping: SleepTree
    const birth: Word

    constructor (birth: Word)
      ensures sleeping.Valid() && sleeping.Sleepers() == {} && sleeping.Keys() == {} && Refs(sleeping.tree) == {}
      ensures this.birth == birth && fresh(sleeping)
    {
      sleeping := new SleepTree();
      this.birth := birth;
      new;
      EmptyMeansNone(sleeping.tree);
    }

    /** Microseconds since the scheduler was created. */
    function Since(now: Word): Word {
      Elapsed(birth, now)
    }

    /** A coroutine that does not sleep may get another key. */
    method SetKey(co: Coroutine, k: nat)
      requires sleeping.Valid() && co !in Refs(sleeping.tree)
      modifies co`sleepUsecs
      ensures sleeping.Valid() && co.sleepUsecs == k
    {
      co.sleepUsecs := k;
    }

    /** Who sleeps under the key of `co`'s last sleep is removed. */
    method RemoveByKey(co: Coroutine)
      requires sleeping.Valid()
      modifies sleeping`root, sleeping`tree, sleeping`repr
      modifies Refs(sleeping.tree)`color, Refs(sleeping.tree)`left, Refs(sleeping.tree)`right,
          Refs(sleeping.tree)`parent
      ensures sleeping.Valid() && co !in Refs(sleeping.tree) && Refs(sleeping.tree) <= old(Refs(sleeping.tree))
      ensures sleeping.Sleepers() == Without(old(sleeping.Sleepers()), co.sleepUsecs)
      ensures sleeping.Keys() == old(sleeping.Keys()) - {co.sleepUsecs}
    {
      hide SleepTree.Linked, Refs, RedBlack.Valid, Ascending, Elements, KeysOf, Without;
      sleeping.InTree(co);
      var tmp := sleeping.Find(co.sleepUsecs);
      if tmp != null {
        WithoutHolder(sleeping.tree, (tmp, co.sleepUsecs));
        if co in Refs(sleeping.tree) { OneOwner(sleeping.tree, (co, co.sleepUsecs), (tmp, co.sleepUsecs)); }
        sleeping.Remove(tmp);
      } else {
        WithoutNobody(sleeping.tree, co.sleepUsecs);
      }
    }

    /** When a sleep of `msecs` milliseconds that begins at `now` is over. */
    function Deadline(msecs: Word, now: Word): Word {
      DueAfter(Since(now), msecs)
    }

    /** `co` sleeps under the first free key from its deadline on, which away from the wrap is the
        least unused one at or after it.  A sleep of no time at all only removes it, but leaves
        it with the present time for a key. */
    method SleepDown(co: Coroutine, msecs: Word, now: Word)
      requires sleeping.Valid() && |sleeping.Keys()| < U64
      modifies sleeping`root, sleeping`tree, sleeping`repr, co
      modifies Refs(sleeping.tree)`color, Refs(sleeping.tree)`left
      modifies Refs(sleeping.tree)`right, Refs(sleeping.tree)`parent
      ensures sleeping.Valid()
      ensures Slept(co, old(co.sleepUsecs), co.sleepUsecs, Deadline(msecs, now), msecs == 0,
                    old(sleeping.Sleepers()), old(sleeping.Keys()), sleeping.Sleepers(), sleeping.Keys())
      ensures msecs != 0 ==> co.sleeping
      ensures Refs(sleeping.tree) <= old(Refs(sleeping.tree)) + {co}
    {
      hide SleepTree.Valid, Refs, Without, Around, Deadline, FirstFree;
      RemoveByKey(co);
      SetKey(co, Deadline(msecs, now));
      if msecs != 0 {
        Enqueue(co);
      }
    }

    /** Tries one key after the other until one is free. */
    method Enqueue(co: Coroutine)
      requires sleeping.Valid() && |sleeping.Keys()| < U64 && co !in Refs(sleeping.tree) && co.sleepUsecs < U64
      modifies sleeping`root, sleeping`tree, sleeping`repr, co
      modifies Refs(sleeping.tree)`color, Refs(sleeping.tree)`left, Refs(sleeping.tree)`right,
          Refs(sleeping.tree)`parent
      ensures sleeping.Valid() && co.sleeping
      ensures co.sleepUsecs == FirstFree(U64, old(co.sleepUsecs), old(sleeping.Keys()))
      ensures sleeping.Sleepers() == old(sleeping.Sleepers()) + {(co, co.sleepUsecs)}
      ensures sleeping.Keys() == old(sleeping.Keys()) + {co.sleepUsecs}
      ensures Refs(sleeping.tree) == old(Refs(sleeping.tree)) + {co}
    {
      hide SleepTree.Valid, Refs, Elements, KeysOf, Around, Tried, FirstFree, Put;
      ghost var start, used, n := co.sleepUsecs, sleeping.Keys(), 0;
      TriedNone(U64, start, used);
      while true
        invariant sleeping.Valid() && sleeping.tree == old(sleeping.tree) && co !in Refs(sleeping.tree)
        invariant co.sleepUsecs == Around(U64, start, n) && Tried(U64, start, used, n)
        decreases |used| - n
      {
        var tmp := sleeping.Insert(co);
        if tmp == null {
          TriedEnough(U64, start, used, n);
          break;
        }
        TriedOne(U64, start, used, n);
        SetKey(co, Around(U64, co.sleepUsecs, 1));
        n := n + 1;
      }
      SetSleeping(co);
    }

    /** The status bit is no part of the tree. */
    method SetSleeping(co: Coroutine)
      requires sleeping.Valid()
      modifies co`sleeping
      ensures sleeping.Valid() && co.sleeping
    {
      co.sleeping := true;
    }

    lemma NoNullNode()
      requires sleeping.Valid()
      ensures null !in Refs(sleeping.tree)
    {
    }

    /** The earliest sleeper, and only once its time has come. */
    method Expired(now: Word) returns (co: Ref)
      requires sleeping.Valid()
      modifies sleeping`root, sleeping`tree, sleeping`repr
      modifies Refs(sleeping.tree)`color, Refs(sleeping.tree)`left, Refs(sleeping.tree)`right,
          Refs(sleeping.tree)`parent
      ensures sleeping.Valid()
      ensures co == null ==> sleeping.tree == old(sleeping.tree) && forall k :: k in sleeping.Keys() ==> k > Since(now)
      ensures co != null ==> (co, co.sleepUsecs) in old(sleeping.Sleepers()) && co.sleepUsecs <= Since(now)
      ensures co != null ==> sleeping.Sleepers() == old(sleeping.Sleepers()) - {(co, co.sleepUsecs)}
      ensures co != null ==> sleeping.Keys() == old(sleeping.Keys()) - {co.sleepUsecs}
      ensures Refs(sleeping.tree) == old(Refs(sleeping.tree)) - {co}
      ensures co != null ==> forall k :: k in old(sleeping.Keys()) ==> co.sleepUsecs <= k
    {
      hide SleepTree.Valid, Refs, Elements, KeysOf;
      EmptyMeansNone(sleeping.tree);
      NoNullNode();
      co := sleeping.MinMax(-1);
      if co == null {
        return;
      }
      if co.sleepUsecs <= Since(now) {
        sleeping.Remove(co);
        return;
      }
      co := null;
    }

    /** The gap to the earliest sleeper; none if it is due, and three seconds if nobody sleeps. */
    method MinTimeout(now: Word) returns (usecs: nat)
      requires sleeping.Valid()
      ensures sleeping.Valid()
      ensures IsGap(sleeping.Keys(), Since(now), usecs)
    {
      hide SleepTree.Valid, Refs, Elements, KeysOf;
      EmptyMeansNone(sleeping.tree);
      var co := sleeping.MinMax(-1);
      if co == null {
        return DEFAULT_TIMEOUT;
      }
      KeyTaken(sleeping.tree, (co, co.sleepUsecs));
      var min := co.sleepUsecs;
      assert IsLeast(sleeping.Keys(), min);
      usecs := if min > Since(now) then min - Since(now) else 0;
    }

    /** How long epoll blocks: the gap to the earliest sleeper as a timespec, which is not past the
        time of any sleeper, or no time at all if something is ready. */
    method PollTime(now: Word, ready: bool) returns (sec: nat, nsec: nat)
      requires sleeping.Valid()
      ensures ready ==> sec == 0 && nsec == 0
      ensures !ready && sleeping.Keys() == {} ==> sec == 3 && nsec == 0
      ensures !ready ==>
                exists usecs: nat :: IsGap(sleeping.Keys(), Since(now), usecs) && (sec, nsec) == TimespecOf(usecs)
      ensures forall k :: k in sleeping.Keys() && k > Since(now) ==>
          sec * 1_000_000_000 + nsec <= (k - Since(now)) * 1000
      ensures forall k :: k in sleeping.Keys() && k <= Since(now) ==> sec == 0 && nsec == 0
    {
      var usecs := MinTimeout(now);
      sec, nsec := 0, 0;
      assert TimespecOf(0) == (0, 0);
      if usecs != 0 && !ready {
        NeverOversleeps(usecs);
        var t := TimespecOf(usecs);
        sec, nsec := t.0, t.1;
      }
    }
  }

  /** If nobody but the holder of its old key sleeps, `co` gets its deadline for a key and sleeps alone. */
  method SleepAlone(sched: Schedule, co: Coroutine, msecs: Word, now: Word)
    requires sched.sleeping.Valid() && msecs != 0
    requires forall x :: x in sched.sleeping.Sleepers() ==> x.1 == co.sleepUsecs
    requires forall k :: k in sched.sleeping.Keys() ==> k == co.sleepUsecs
    modifies sched.sleeping`root, sched.sleeping`tree, sched.sleeping`repr, co
    modifies Refs(sched.sleeping.tree)`color, Refs(sched.sleeping.tree)`left
    modifies Refs(sched.sleeping.tree)`right, Refs(sched.sleeping.tree)`parent
    ensures sched.sleeping.Valid() && co.sleeping && co.sleepUsecs == sched.Deadline(msecs, now)
    ensures sched.sleeping.Sleepers() == {(co, co.sleepUsecs)} && sched.sleeping.Keys() == {co.sleepUsecs}
    ensures Refs(sched.sleeping.tree) <= old(Refs(sched.sleeping.tree)) + {co}
  {
    hide SleepTree.Valid, Refs, Slept, FirstFree, Schedule.Deadline, Elements, KeysOf;
    ghost var key, s, keys := co.sleepUsecs, sched.sleeping.Sleepers(), sched.sleeping.Keys();
    OneAtMost(keys, key);
    sched.SleepDown(co, msecs, now);
    SleptAlone<Ref>(co, key, co.sleepUsecs, sched.Deadline(msecs, now), s, keys, sched.sleeping.Sleepers(),
        sched.sleeping.Keys());
  }

  lemma OneAtMost(keys: set<nat>, key: nat)
    requires forall k :: k in keys ==> k == key
    ensures |keys| <= 1
  {
    assert |{key}| == 1 && {key} == keys + ({key} - keys);
  }

  /** A sleeps for a millisecond at `u` and is woken at `t`.  The clock is set back to `u`, B sleeps for
      a millisecond and gets the key A had.  When A sleeps again, B is gone from the set although
      nobody has woken it.  So it goes for any clock that is set back by a millisecond or more. */
  method LostSleeper(u: Word, t: Word, v: Word) returns (sched: Schedule, a: Coroutine, b: Coroutine)
    requires u + 1000 <= t
    ensures sched.sleeping.Valid() && a != b && sched.sleeping.Sleepers() == {(a, a.sleepUsecs)}
    ensures b.sleeping && b.sleepUsecs == u + 1000 && a.sleepUsecs == DueAfter(v, 1)
  {
    hide SleepTree.Valid, Refs, Slept, Elements, KeysOf, DueAfter;
    sched := new Schedule(0);
    a := new Coroutine();
    b := new Coroutine();
    FromZero(u);
    FromZero(v);
    SleepAlone(sched, a, 1, u);
    FromZero(t);
    ghost var keys := sched.sleeping.Keys();
    assert u + 1000 in keys;
    var woken := sched.Expired(t);
    assert woken == null ==> sched.sleeping.Keys() == keys;
    assert woken == a;
    SleepAlone(sched, b, 1, u);
    SleepAlone(sched, a, 1, v);
  }

  lemma FromZero(now: Word)
    ensures Elapsed(0, now) == now && (now + 1000 < U64 ==> DueAfter(now, 1) == now + 1000)
  {
  }

  /** Whoever goes to sleep when nobody else is left once the old key is free gets its deadline. */
  lemma SleptAlone<P>(co: P, oldKey: nat, newKey: nat, deadline: Word,
                      s: set<(P, nat)>, keys: set<nat>, s': set<(P, nat)>, keys': set<nat>)
    requires Slept(co, oldKey, newKey, deadline, false, s, keys, s', keys')
    requires (forall x :: x in s ==> x.1 == oldKey) && (forall k :: k in keys ==> k == oldKey)
    ensures newKey == deadline && s' == {(co, deadline)} && keys' == {deadline}
  {
    assert keys - {oldKey} == {} && Without(s, oldKey) == {};
  }
}
