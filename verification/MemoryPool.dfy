/** The fixed-block pool: one storage area cut into blocks, the free ones on an intrusive
    last-in first-out list. */
module MemoryPool {

  const BLOCK: nat := 2048
  const CAP: nat := 4096

  /** A block is named by its number; -1 is the null pointer. */
  const NULL: int := -1

  predicate IsBlock(b: int) {
    0 <= b < CAP
  }

  /** What the block at place `i` of the free list links to. */
  function NextAfter(free: seq<int>, i: nat): int {
    if i + 1 < |free| then free[i + 1] else NULL
  }

  /** Followed through `next` from `head`, the free list is exactly `free`. */
  ghost predicate Chained(free: seq<int>, head: int, next: seq<int>) {
    && |next| == CAP
    && head == (if free == [] then NULL else free[0])
    && (forall i :: 0 <= i < |free| ==> IsBlock(free[i]))
    && (forall i {:trigger free[i]} :: 0 <= i < |free| ==> next[free[i]] == NextAfter(free, i))
  }

  ghost predicate NoDuplicates(s: seq<int>) {
    forall i, j :: 0 <= i < j < |s| ==> s[i] != s[j]
  }

  /** Every block is on the free list, once, or handed out, never both. */
  ghost predicate Split(free: seq<int>, taken: set<int>) {
    && NoDuplicates(free)
    && (forall b :: b in taken ==> IsBlock(b) && b !in free)
    && (forall b :: IsBlock(b) ==> b in free || b in taken)
  }

  lemma PushChained(free: seq<int>, head: int, next: seq<int>, b: int)
    requires Chained(free, head, next) && IsBlock(b) && b !in free
    ensures Chained([b] + free, b, next[b := head])
  {
    var free', next' := [b] + free, next[b := head];
    forall i | 0 <= i < |free'| ensures IsBlock(free'[i]) && next'[free'[i]] == NextAfter(free', i) {
      if i > 0 {
        assert free'[i] == free[i - 1] && free[i - 1] in free;
        assert next[free[i - 1]] == NextAfter(free, i - 1);
      }
    }
  }

  lemma PushSplit(free: seq<int>, taken: set<int>, b: int)
    requires Split(free, taken) && b in taken
    ensures Split([b] + free, taken - {b})
  {
    var free' := [b] + free;
    forall i, j | 0 <= i < j < |free'| ensures free'[i] != free'[j] {
      assert free'[j] == free[j - 1] && free[j - 1] in free;
      if i > 0 { assert free'[i] == free[i - 1]; }
    }
    assert forall c :: c in free' <==> c == b || c in free;
  }

  /** Freeing pushes: the old list hangs behind the new head. */
  lemma PushFree(free: seq<int>, head: int, next: seq<int>, taken: set<int>, b: int)
    requires Chained(free, head, next) && Split(free, taken) && b in taken
    ensures Chained([b] + free, b, next[b := head]) && Split([b] + free, taken - {b})
  {
    hide Chained;
    PushChained(free, head, next, b);
    PushSplit(free, taken, b);
  }

  lemma PopChained(free: seq<int>, head: int, next: seq<int>)
    requires Chained(free, head, next) && free != []
    ensures IsBlock(head) && Chained(free[1..], next[head], next)
  {
    var rest := free[1..];
    forall i | 0 <= i < |rest| ensures IsBlock(rest[i]) && next[rest[i]] == NextAfter(rest, i) {
      assert rest[i] == free[i + 1];
    }
    assert next[free[0]] == NextAfter(free, 0);
  }

  /** Allocating pops: the rest of the list stays as it is. */
  lemma PopFree(free: seq<int>, head: int, next: seq<int>, taken: set<int>)
    requires Chained(free, head, next) && Split(free, taken) && free != []
    ensures IsBlock(head) && free == [head] + free[1..] && head !in taken
    ensures Chained(free[1..], next[head], next) && Split(free[1..], taken + {head})
  {
    PopChained(free, head, next);
    var rest := free[1..];
    forall c | IsBlock(c) ensures c in rest || c in taken + {head} {
      if c in free && c != head {
        var i :| 0 <= i < |free| && free[i] == c;
        assert rest[i - 1] == c;
      }
    }
  }

  ghost function Members(s: seq<int>): set<int> {
    set i | 0 <= i < |s| :: s[i]
  }

  lemma {:induction false} CountDistinct(s: seq<int>)
    requires NoDuplicates(s)
    ensures |Members(s)| == |s|
  {
    if s != [] {
      var init, last := s[..|s| - 1], s[|s| - 1];
      CountDistinct(init);
      assert Members(s) == Members(init) + {last};
      assert last !in Members(init);
    }
  }

  ghost function Blocks(n: nat): (r: set<int>)
    ensures |r| == n && (forall b :: b in r <==> 0 <= b < n)
  {
    if n == 0 then {} else Blocks(n - 1) + {n - 1}
  }

  lemma CountSplit(free: seq<int>, taken: set<int>, n: nat)
    requires NoDuplicates(free) && (forall b :: b in taken ==> b !in free)
    requires forall b :: 0 <= b < n <==> b in free || b in taken
    ensures |free| + |taken| == n
  {
    hide Blocks, NoDuplicates;
    CountDistinct(free);
    var s := Members(free);
    assert forall b :: b in s <==> b in free;
    assert s + taken == Blocks(n);
    assert s !! taken && |s + taken| == |s| + |taken|;
  }

  /** Free plus outstanding is the capacity. */
  lemma Conservation(free: seq<int>, taken: set<int>)
    requires Split(free, taken) && (forall i :: 0 <= i < |free| ==> IsBlock(free[i]))
    ensures |free| + |taken| == CAP
  {
    hide NoDuplicates;
    forall b ensures 0 <= b < CAP <==> b in free || b in taken {
      assert IsBlock(b) <==> 0 <= b < CAP;
    }
    CountSplit(free, taken, CAP);
  }

  class MemoryPool {
    /** The link stored in the first bytes of each block while it is free. */
    const next: array<int>
    var freeHead: int

    /** The free list, first block first, and the blocks handed out. */
    ghost var free: seq<int>
    ghost var taken: set<int>

    /** The most blocks that have been out at the same time. */
    ghost var peak: nat

    ghost predicate Valid()
      reads this, next
    {
      Chained(free, freeHead, next[..]) && Split(free, taken) && |taken| <= peak
    }

    constructor ()
      ensures Valid() && fresh(next) && taken == {} && |free| == CAP && peak == 0
    {
      next := new int[CAP];
      freeHead := NULL;
      free, taken, peak := [], {}, 0;
      new;
      var i := 0;
      while i < CAP
        invariant 0 <= i <= CAP && |free| == i
        invariant taken == {} && fresh(next) && peak == 0
        invariant Chained(free, freeHead, next[..])
        invariant forall j :: 0 <= j < i ==> free[j] == i - 1 - j
      {
        ghost var before := next[..];
        next[i] := freeHead;
        assert next[..] == before[i := freeHead];
        freeHead := i;
        free := [i] + free;
        i := i + 1;
      }
      forall b | IsBlock(b) ensures b in free {
        assert free[CAP - 1 - b] == b;
      }
    }

    /** Takes the first free block; null exactly when all of them are out. */
    method Alloc() returns (b: int)
      requires Valid()
      modifies this`freeHead, this`free, this`taken, this`peak
      ensures Valid()
      ensures b == NULL <==> |old(taken)| == CAP
      ensures b == NULL ==> free == old(free) && taken == old(taken) && peak == old(peak)
      ensures b != NULL ==> peak == if |old(taken)| < old(peak) then old(peak) else |old(taken)| + 1
      ensures b != NULL ==> b !in old(taken) && taken == old(taken) + {b} && old(free) == [b] + free
    {
      Conservation(free, taken);
      if freeHead == NULL {
        return NULL;
      }
      PopFree(free, freeHead, next[..], taken);
      b := freeHead;
      freeHead := next[b];
      taken := taken + {b};
      peak := if |taken| <= peak then peak else |taken|;
      free := free[1..];
    }

    /** Gives a block back, or does nothing for the null pointer. */
    method Free(b: int)
      requires Valid() && (b == NULL || b in taken)
      modifies this`freeHead, this`free, this`taken, next
      ensures Valid()
      ensures b == NULL ==> free == old(free) && taken == old(taken)
      ensures b != NULL ==> free == [b] + old(free) && taken == old(taken) - {b}
    {
      if b == NULL {
        return;
      }
      PushFree(free, freeHead, next[..], taken, b);
      ghost var before := next[..];
      next[b] := freeHead;
      assert next[..] == before[b := freeHead];
      freeHead := b;
      free := [b] + free;
      taken := taken - {b};
    }
  }
}
