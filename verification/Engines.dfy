/** The three storage engines side by side, over whole runs of commands. */
module Engines {
  import opened CStrings
  import opened Options
  import RedBlack
  import opened ArrayEngine
  import opened TreeLayout
  import opened KvSearch
  import opened KvRbTree
  import HashChains
  import opened HashTable

  datatype Command =
    | Set(key: CString, value: CString)
    | Get(key: CString)
    | Del(key: CString)
    | Mod(key: CString, value: CString)

  type Dictionary = map<CString, CString>

  /** What a command does to a plain map, and what it answers. */
  function Step(m: Dictionary, c: Command): Dictionary {
    match c
    case Set(k, v) => m[k := v]
    case Get(_) => m
    case Del(k) => m - {k}
    case Mod(k, v) => if k in m then m[k := v] else m
  }

  function Answer(m: Dictionary, c: Command): Reply {
    if c.Get? && c.key in m then Some(m[c.key]) else None
  }

  function Answers(m: Dictionary, run: seq<Command>): seq<Reply>
    decreases |run|
  {
    if run == [] then [] else [Answer(m, run[0])] + Answers(Step(m, run[0]), run[1..])
  }

  /** SETs only of absent keys while there is room; all other commands are free. */
  predicate Fits(m: Dictionary, c: Command) {
    c.Set? ==> c.key !in m && |m| < SIZE
  }

  predicate Admissible(m: Dictionary, run: seq<Command>)
    decreases |run|
  {
    run != [] ==> Fits(m, run[0]) && Admissible(Step(m, run[0]), run[1..])
  }

  lemma SizeWith(m: Dictionary, k: CString, v: CString)
    ensures |m[k := v]| == |m| + if k in m then 0 else 1
  {
    assert m[k := v].Keys == m.Keys + {k};
    assert |m[k := v]| == |m[k := v].Keys| && |m| == |m.Keys|;
  }

  lemma SizeWithout(m: Dictionary, k: CString)
    ensures |m - {k}| == |m| - if k in m then 1 else 0
  {
    var m' := m - {k};
    assert m'.Keys == m.Keys - {k};
    assert |m'| == |m'.Keys| && |m| == |m.Keys|;
  }

  lemma StepSize(m: Dictionary, c: Command)
    requires Fits(m, c) && |m| <= SIZE
    ensures |Step(m, c)| <= SIZE
  {
    SizeWithout(m, c.key);
    if c.Set? || c.Mod? { SizeWith(m, c.key, c.value); }
  }

  /** A table with fewer than 1024 keys has a hole. */
  lemma RoomLeft(s: seq<Slot>, m: Dictionary)
    requires Represents(s, m) && |m| < |s|
    ensures exists i :: 0 <= i < |s| && s[i] == Hole
  {
    if forall i :: 0 <= i < |s| ==> s[i].Full? { FullMeansMany(s, m); }
  }

  method ArrayDo(a: ArrayStore, c: Command, ghost m: Dictionary) returns (r: Reply)
    requires a.Valid() && Represents(a.table[..], m) && Fits(m, c)
    modifies a, a.table
    ensures a.Valid() && Represents(a.table[..], Step(m, c)) && r == Answer(m, c)
  {
    ghost var s := a.table[..];
    r := None;
    ReadAgrees(s, m, c.key);
    match c
    case Set(k, v) => RoomLeft(s, m); var _ := a.Set(k, v);
    case Get(k) => r := a.Get(k);
    case Del(k) => var _ := a.Delete(k);
    case Mod(k, v) => var _ := a.Modify(k, v);
  }

  /** What the red-black engine does instead: a SET of a present key changes nothing. */
  function TreeStep(m: Dictionary, c: Command): Dictionary {
    if c.Set? && c.key in m then m else Step(m, c)
  }

  /** The red-black and the hash engine stay alike over a SET if and only if the key is new or
      keeps its value. */
  lemma SetsAgree(m: Dictionary, k: CString, v: CString)
    ensures TreeStep(m, Set(k, v)) == Step(m, Set(k, v)) <==> k !in m || m[k] == v
  {
    if k in m && m[k] == v { assert m[k := v] == m; }
  }

  /** Is this a SET that the red-black engine counts without storing it? */
  function Repeats(m: Dictionary, c: Command): nat {
    if c.Set? && c.key in m then 1 else 0
  }

  lemma TreeStepSize(m: Dictionary, c: Command)
    ensures |TreeStep(m, c)| - |m|
         == (if c.Set? && c.key !in m then 1 else if c.Del? && c.key in m then -1 else 0)
  {
    SizeWithout(m, c.key);
    if c.Set? || c.Mod? { SizeWith(m, c.key, c.value); }
  }

  method TreeDo(t: RbTree, c: Command) returns (r: Reply)
    requires t.Valid()
    modifies t, t.nil, Refs(t.tree)
    ensures t.Valid() && Contents(t.tree) == TreeStep(old(Contents(t.tree)), c) && r == Answer(old(Contents(t.tree)), c)
    ensures t.count - |Contents(t.tree)| == old(t.count - |Contents(t.tree)|) + Repeats(old(Contents(t.tree)), c)
    ensures fresh(Refs(t.tree) - old(Refs(t.tree)))
  {
    hide RbTree.Valid, Refs, Contents;
    TreeStepSize(Contents(t.tree), c);
    r := None;
    match c
    case Set(k, v) => var _ := t.Set(k, v);
    case Get(k) => r := t.Get(k);
    case Del(k) => var _ := t.Del(k);
    case Mod(k, v) => var _ := t.Modify(k, v);
  }

  /** Does the command meet an empty bucket of a table of `size` slots that holds `m`?  Then it
      leaves the mutex held. */
  predicate Locks(m: Dictionary, size: nat, c: Command)
    requires size > 0
  {
    c.Del? && forall x :: x in m ==> HashChains.Slot(x, size) != HashChains.Slot(c.key, size)
  }

  /** The number of slots after a command. */
  function Grown(m: Dictionary, size: nat, c: Command): (n: nat)
    ensures size > 0 ==> n > 0
  {
    if c.Set? && 10 * (|m| + 1) > 7 * size then 2 * size else size
  }

  /** The hash engine is a plain map.  The mutex stays held exactly after a DEL that meets an
      empty bucket. */
  method HashDo(h: HashTable, c: Command) returns (r: Reply)
    requires h.Valid() && !h.locked && (c.Set? ==> HashRoom(h.dict))
    modifies h, h.nodes, h.repr
    ensures h.Valid() && h.dict == Step(old(h.dict), c) && r == Answer(old(h.dict), c)
    ensures h.maxSlots == Grown(old(h.dict), old(h.maxSlots), c)
    ensures old(h.maxSlots) > 0 && (h.locked <==> Locks(old(h.dict), old(h.maxSlots), c))
    ensures (h.nodes == old(h.nodes) || fresh(h.nodes)) && fresh(h.repr - old(h.repr))
  {
    hide HashTable.Valid, HashTable.Linked, HashChains.Slot;
    h.Counted();
    h.BucketOf(c.key);
    r := None;
    match c
    case Set(k, v) => var _ := h.Put(k, v);
    case Get(k) => r := h.Get(k);
    case Del(k) => h.LookFor(k); var _ := h.Delete(k);
    case Mod(k, v) => var _ := h.Modify(k, v);
  }

  /** Another binding still fits the largest table. */
  predicate HashRoom(m: Dictionary) {
    10 * (|m| + 1) <= 7 * HashChains.MAX_SLOTS
  }

  predicate HashFits(m: Dictionary, run: seq<Command>)
    decreases |run|
  {
    run != [] ==> (run[0].Set? ==> HashRoom(m)) && HashFits(Step(m, run[0]), run[1..])
  }

  function End(m: Dictionary, run: seq<Command>): Dictionary
    decreases |run|
  {
    if run == [] then m else End(Step(m, run[0]), run[1..])
  }

  /** The run of the red-black engine as a map, its answers, and how often it counts a key twice. */
  function TreeAnswers(m: Dictionary, run: seq<Command>): seq<Reply>
    decreases |run|
  {
    if run == [] then [] else [Answer(m, run[0])] + TreeAnswers(TreeStep(m, run[0]), run[1..])
  }

  function TreeEnd(m: Dictionary, run: seq<Command>): Dictionary
    decreases |run|
  {
    if run == [] then m else TreeEnd(TreeStep(m, run[0]), run[1..])
  }

  function Repeated(m: Dictionary, run: seq<Command>): nat
    decreases |run|
  {
    if run == [] then 0 else Repeats(m, run[0]) + Repeated(TreeStep(m, run[0]), run[1..])
  }

  lemma {:induction false} TreeFollows(m: Dictionary, run: seq<Command>)
    requires Admissible(m, run)
    ensures TreeAnswers(m, run) == Answers(m, run)
    decreases |run|
  {
    if run != [] { TreeFollows(Step(m, run[0]), run[1..]); }
  }

  lemma TreeOne(m: Dictionary, run: seq<Command>, i: nat)
    requires i < |run|
    ensures var m1, rest, rest1 := TreeStep(m, run[i]), run[i..], run[i + 1..];
            && TreeAnswers(m, rest) == [Answer(m, run[i])] + TreeAnswers(m1, rest1)
            && TreeEnd(m, rest) == TreeEnd(m1, rest1)
            && Repeated(m, rest) == Repeats(m, run[i]) + Repeated(m1, rest1)
  {
    assert run[i..][0] == run[i] && run[i..][1..] == run[i + 1..];
  }

  lemma TreeDone(m: Dictionary, run: seq<Command>)
    ensures TreeAnswers(m, run[|run|..]) == [] && TreeEnd(m, run[|run|..]) == m && Repeated(m, run[|run|..]) == 0
  {
  }

  /** Any run of the red-black engine: `count` is the number of keys plus the number of SETs
      that repeated one. */
  method RunTree(run: seq<Command>) returns (replies: seq<Reply>, count: int)
    ensures replies == TreeAnswers(map[], run)
    ensures count == |TreeEnd(map[], run)| + Repeated(map[], run)
  {
    hide RbTree.Valid, Refs, Contents, TreeStep, TreeAnswers, TreeEnd, Repeated, Answer, Repeats;
    var t := new RbTree();
    t.Nodes();
    NoRefs(t.tree);
    ghost var m: Dictionary := map[];
    replies := [];
    var i := 0;
    assert run[0..] == run;
    while i < |run|
      invariant 0 <= i <= |run| && fresh(t) && fresh(t.nil) && fresh(t.repr) && t.repr == Refs(t.tree)
      invariant t.Valid() && Contents(t.tree) == m
      invariant TreeAnswers(map[], run) == replies + TreeAnswers(m, run[i..])
      invariant TreeEnd(map[], run) == TreeEnd(m, run[i..])
      invariant t.count - |m| + Repeated(m, run[i..]) == Repeated(map[], run)
    {
      TreeOne(m, run, i);
      var r := TreeDo(t, run[i]);
      t.Nodes();
      m := TreeStep(m, run[i]);
      replies := replies + [r];
      i := i + 1;
    }
    TreeDone(m, run);
    count := t.count;
  }

  lemma NoRefs(t: Shape)
    requires t == RedBlack.Leaf
    ensures Refs(t) == {}
  {
  }

  lemma NoneYet(m: Dictionary, run: seq<Command>)
    ensures End(m, run[..0]) == m && Answers(m, run[..0]) == []
  {
  }

  lemma {:induction false} OneMore(m: Dictionary, run: seq<Command>, i: nat)
    requires i < |run|
    ensures End(m, run[..i + 1]) == Step(End(m, run[..i]), run[i])
    ensures Answers(m, run[..i + 1]) == Answers(m, run[..i]) + [Answer(End(m, run[..i]), run[i])]
    decreases i
  {
    hide Step, Answer;
    var m1 := Step(m, run[0]);
    if i == 0 {
      assert run[..1][1..] == [];
    } else {
      assert run[..i + 1][1..] == run[1..][..i] && run[..i][1..] == run[1..][..i - 1];
      OneMore(m1, run[1..], i - 1);
    }
  }

  lemma {:induction false} HashFitsAt(m: Dictionary, run: seq<Command>, i: nat)
    requires HashFits(m, run) && i < |run|
    ensures run[i].Set? ==> HashRoom(End(m, run[..i]))
    decreases i
  {
    hide Step;
    if i > 0 {
      assert run[..i][1..] == run[1..][..i - 1];
      HashFitsAt(Step(m, run[0]), run[1..], i - 1);
    }
  }

  /** How many slots the hash engine has after a run that began with `size`. */
  function SizeAfter(m: Dictionary, size: nat, run: seq<Command>): (n: nat)
    ensures size > 0 ==> n > 0
    decreases |run|
  {
    if run == [] then size else SizeAfter(Step(m, run[0]), Grown(m, size, run[0]), run[1..])
  }

  /** How many commands of a run the hash engine serves before it waits for its own mutex. */
  function Served(m: Dictionary, size: nat, run: seq<Command>): (n: nat)
    requires size > 0
    ensures n <= |run|
    decreases |run|
  {
    if run == [] then 0
    else if Locks(m, size, run[0]) then 1
    else 1 + Served(Step(m, run[0]), Grown(m, size, run[0]), run[1..])
  }

  /** Does command `i` of a run from an empty table meet an empty bucket? */
  predicate LocksAt(run: seq<Command>, i: nat)
    requires i < |run|
  {
    var n := SizeAfter(map[], HashChains.INITIAL_SLOTS, run[..i]);
    Locks(End(map[], run[..i]), n, run[i])
  }

  lemma {:induction false} SizeOne(m: Dictionary, size: nat, run: seq<Command>, i: nat)
    requires i < |run|
    ensures SizeAfter(m, size, run[..i + 1]) == Grown(End(m, run[..i]), SizeAfter(m, size, run[..i]), run[i])
    decreases i
  {
    hide Step, Grown;
    if i == 0 {
      assert run[..1][1..] == [];
    } else {
      assert run[..i + 1][1..] == run[1..][..i] && run[..i][1..] == run[1..][..i - 1];
      SizeOne(Step(m, run[0]), Grown(m, size, run[0]), run[1..], i - 1);
    }
  }

  /** `Served` counts up to and including the first command that meets an empty bucket. */
  lemma {:induction false} ServedStops(m: Dictionary, size: nat, run: seq<Command>, n: nat)
    requires size > 0 && n <= |run|
    requires forall i :: 0 <= i < n ==> !Locks(End(m, run[..i]), SizeAfter(m, size, run[..i]), run[i])
    ensures n == |run| ==> Served(m, size, run) == n
    ensures n < |run| && Locks(End(m, run[..n]), SizeAfter(m, size, run[..n]), run[n]) ==> Served(m, size, run) == n + 1
    decreases |run|
  {
    hide Step, Grown, Locks;
    if run != [] {
      var m1, size1, rest := Step(m, run[0]), Grown(m, size, run[0]), run[1..];
      assert run[..0] == [] && !(n > 0 && Locks(m, size, run[0]));
      forall i | 0 <= i < |rest|
        ensures End(m1, rest[..i]) == End(m, run[..i + 1])
        ensures SizeAfter(m1, size1, rest[..i]) == SizeAfter(m, size, run[..i + 1])
      {
        assert run[..i + 1][1..] == rest[..i];
      }
      if n > 0 { ServedStops(m1, size1, rest, n - 1); }
    }
  }

  lemma ServedWhen(run: seq<Command>, served: nat)
    requires served <= |run| && forall i :: 0 <= i < served - 1 ==> !LocksAt(run, i)
    requires served < |run| ==> served > 0 && LocksAt(run, served - 1)
    ensures Served(map[], HashChains.INITIAL_SLOTS, run) == served
  {
    hide SizeAfter, End, Locks, Served;
    var n := if served > 0 && LocksAt(run, served - 1) then served - 1 else served;
    forall i | 0 <= i < n
      ensures !Locks(End(map[], run[..i]), SizeAfter(map[], HashChains.INITIAL_SLOTS, run[..i]), run[i])
    {
      assert !LocksAt(run, i);
    }
    ServedStops(map[], HashChains.INITIAL_SLOTS, run, n);
  }

  /** Where the hash engine stands after `n` commands. */
  ghost predicate Stands(run: seq<Command>, n: nat, m: Dictionary, size: nat, locked: bool) {
    && n <= |run| && m == End(map[], run[..n]) && size == SizeAfter(map[], HashChains.INITIAL_SLOTS, run[..n])
    && (locked <==> n > 0 && LocksAt(run, n - 1))
    && (forall i :: 0 <= i < n - 1 ==> !LocksAt(run, i))
  }

  lemma StandsFirst(run: seq<Command>)
    ensures Stands(run, 0, map[], HashChains.INITIAL_SLOTS, false)
  {
  }

  lemma StandsNext(run: seq<Command>, n: nat, m: Dictionary, size: nat)
    requires Stands(run, n, m, size, false) && n < |run|
    ensures size > 0 && Stands(run, n + 1, Step(m, run[n]), Grown(m, size, run[n]), Locks(m, size, run[n]))
  {
    hide Step, Grown, Locks, End, SizeAfter;
    OneMore(map[], run, n);
    SizeOne(map[], HashChains.INITIAL_SLOTS, run, n);
    assert LocksAt(run, n) <==> Locks(m, size, run[n]);
  }

  lemma StandsDone(run: seq<Command>, n: nat, m: Dictionary, size: nat, locked: bool)
    requires Stands(run, n, m, size, locked) && (n < |run| ==> locked)
    ensures n == Served(map[], HashChains.INITIAL_SLOTS, run) && (locked <==> n > 0 && LocksAt(run, n - 1))
  {
    hide LocksAt;
    ServedWhen(run, n);
  }

  lemma AnswersOne(run: seq<Command>, n: nat, m: Dictionary, size: nat)
    requires Stands(run, n, m, size, false) && n < |run|
    ensures Answers(map[], run[..n + 1]) == Answers(map[], run[..n]) + [Answer(m, run[n])]
    ensures HashFits(map[], run) && run[n].Set? ==> HashRoom(m)
  {
    OneMore(map[], run, n);
    if HashFits(map[], run) { HashFitsAt(map[], run, n); }
  }

  /** Any run of the hash engine answers as a plain map does up to the first DEL that meets an
      empty bucket; that one still answers, but leaves the mutex held. */
  method RunHash(run: seq<Command>) returns (replies: seq<Reply>, served: nat, stuck: bool)
    requires HashFits(map[], run)
    ensures served == Served(map[], HashChains.INITIAL_SLOTS, run)
    ensures replies == Answers(map[], run[..served])
    ensures stuck <==> served > 0 && LocksAt(run, served - 1)
  {
    hide HashTable.Valid, Step, Answer, HashRoom, HashFits, Answers, Grown, Locks, LocksAt, Served, Stands;
    var h := new HashTable();
    replies, served := [], 0;
    NoneYet(map[], run);
    StandsFirst(run);
    while served < |run| && !h.locked
      invariant fresh(h) && fresh(h.nodes) && fresh(h.repr) && h.Valid()
      invariant served <= |run| && Stands(run, served, h.dict, h.maxSlots, h.locked)
      invariant replies == Answers(map[], run[..served])
    {
      AnswersOne(run, served, h.dict, h.maxSlots);
      StandsNext(run, served, h.dict, h.maxSlots);
      var r := HashDo(h, run[served]);
      replies := replies + [r];
      served := served + 1;
    }
    stuck := h.locked;
    StandsDone(run, served, h.dict, h.maxSlots, h.locked);
  }

  method RunArray(run: seq<Command>) returns (replies: seq<Reply>)
    requires Admissible(map[], run)
    ensures replies == Answers(map[], run)
  {
    var a := new ArrayStore();
    ghost var m: Dictionary := map[];
    replies := [];
    hide ArrayStore.Valid, ArrayEngine.Represents, Step, Fits;
    var i := 0;
    assert run[0..] == run;
    while i < |run|
      invariant 0 <= i <= |run| && fresh(a) && fresh(a.table)
      invariant a.Valid() && ArrayEngine.Represents(a.table[..], m) && |m| <= SIZE && Admissible(m, run[i..])
      invariant Answers(map[], run) == replies + Answers(m, run[i..])
    {
      var r := ArrayDo(a, run[i], m);
      StepSize(m, run[i]);
      assert run[i..][0] == run[i] && run[i..][1..] == run[i + 1..];
      m := Step(m, run[i]);
      replies := replies + [r];
      i := i + 1;
    }
  }

  lemma {:induction false} AdmissibleFits(m: Dictionary, run: seq<Command>)
    requires Admissible(m, run) && |m| <= SIZE
    ensures HashFits(m, run)
    decreases |run|
  {
    if run != [] {
      StepSize(m, run[0]);
      AdmissibleFits(Step(m, run[0]), run[1..]);
    }
  }

  lemma {:induction false} AnswersUpTo(m: Dictionary, run: seq<Command>, n: nat)
    requires n <= |run|
    ensures |Answers(m, run)| == |run| && Answers(m, run[..n]) == Answers(m, run)[..n]
    decreases |run|
  {
    hide Step, Answer;
    if run != [] {
      AnswersUpTo(Step(m, run[0]), run[1..], if n > 0 then n - 1 else 0);
      if n > 0 { assert run[..n][1..] == run[1..][..n - 1]; }
    }
  }

  /** Over every run from empty engines that SETs only absent keys and never holds more than 1024,
      the array and the red-black engine answer every GET as a plain map does, and so does the
      hash engine up to the first DEL that meets an empty bucket. */
  method Compare(run: seq<Command>) returns (ra: seq<Reply>, rt: seq<Reply>, rh: seq<Reply>)
    requires Admissible(map[], run)
    ensures ra == rt == Answers(map[], run)
    ensures |rh| == Served(map[], HashChains.INITIAL_SLOTS, run) <= |ra| && rh == ra[..|rh|]
  {
    hide Served, Answers;
    TreeFollows(map[], run);
    AdmissibleFits(map[], run);
    ra := RunArray(run);
    var count, served, stuck;
    rt, count := RunTree(run);
    rh, served, stuck := RunHash(run);
    AnswersUpTo(map[], run, served);
  }

  /** A run that locks the hash engine: a DEL of any key from an empty store.  The GET after it
      is never answered. */
  lemma LockingRun(k: CString)
    ensures Admissible(map[], [Del(k), Get(k)]) && Served(map[], HashChains.INITIAL_SLOTS, [Del(k), Get(k)]) == 1
  {
  }

  lemma TwoSteps(h: nat, c: CChar, d: CChar)
    ensures HashChains.HashFrom(h, [c, d]) == HashChains.HashStep(HashChains.HashStep(h, c), d)
  {
    hide HashChains.HashStep;
    var key: CString, h1 := [c, d], HashChains.HashStep(h, c);
    assert key[1..] == [d] && [d][1..] == [];
    assert HashChains.HashFrom(h1, [d]) == HashChains.HashFrom(HashChains.HashStep(h1, d), []);
  }

  lemma SameHash()
    ensures HashChains.HashFrom(5381, [66, 40]) == HashChains.HashFrom(5381, [65, 73])
  {
    hide HashChains.HashFrom, HashChains.HashStep;
    TwoSteps(5381, 66, 40);
    TwoSteps(5381, 65, 73);
    HashChains.StepIsPoly(5381, 66);
    HashChains.StepIsPoly(5381, 65);
    HashChains.StepIsPoly(177639, 40);
    HashChains.StepIsPoly(177638, 73);
  }

  /** A DEL of a missing key is harmless if another key is in its bucket: "B(" and "AI" share
      their slot in every table. */
  lemma HarmlessMiss(v: CString, size: nat)
    requires size > 0
    ensures HashChains.Slot([66, 40], size) == HashChains.Slot([65, 73], size)
    ensures !Locks(map[[66, 40] := v], size, Del([65, 73]))
  {
    var m: Dictionary := map[[66, 40] := v];
    SameHash();
    hide HashChains.Slot;
    assert [66, 40] in m;
  }
}
