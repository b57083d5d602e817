/** Counters that wrap: looking for the first free number on a circle of `size` numbers. */
module Circle {

  /** The number `i` places after `c`. */
  function Around(size: nat, c: nat, i: nat): (r: nat)
    requires size > 0
    ensures r < size
  {
    (c + i) % size
  }

  /** How many numbers from `c` on are in use. */
  function Probe(size: nat, c: nat, used: set<nat>): nat
    requires size > 0
    decreases |used|
  {
    if c in used then 1 + Probe(size, Around(size, c, 1), used - {c}) else 0
  }

  /** The first number from `c` on that is not in use. */
  function FirstFree(size: nat, c: nat, used: set<nat>): nat
    requires size > 0
  {
    Around(size, c, Probe(size, c, used))
  }

  /** The first `n` numbers from `c` on. */
  ghost function Arc(size: nat, c: nat, n: nat): set<nat>
    requires size > 0
  {
    if n == 0 then {} else Arc(size, c, n - 1) + {Around(size, c, n - 1)}
  }

  lemma NoMultiple(q: int, size: nat)
    requires size > 0
    ensures !(0 < q * size < size)
  {
    if q <= 0 { assert q * size <= 0; } else { assert (q - 1) * size >= 0; }
  }

  lemma DistinctPlaces(size: nat, c: nat, i: nat, j: nat)
    requires i < j && j - i < size
    ensures Around(size, c, i) != Around(size, c, j)
  {
    if Around(size, c, i) == Around(size, c, j) {
      var q, q' := (c + i) / size, (c + j) / size;
      assert (q' - q) * size == q' * size - q * size == j - i;
      NoMultiple(q' - q, size);
    }
  }

  lemma {:induction false} OffArc(size: nat, c: nat, n: nat, j: nat)
    requires n <= j < size
    ensures Around(size, c, j) !in Arc(size, c, n)
  {
    if n > 0 {
      DistinctPlaces(size, c, n - 1, j);
      OffArc(size, c, n - 1, j);
    }
  }

  /** Up to a full circle, the numbers on an arc are all different. */
  lemma {:induction false} ArcSize(size: nat, c: nat, n: nat)
    requires 0 < size && n <= size
    ensures |Arc(size, c, n)| == n
  {
    if n > 0 {
      OffArc(size, c, n - 1, n - 1);
      ArcSize(size, c, n - 1);
    }
  }

  lemma AroundOnce(size: nat, c: nat, n: nat)
    requires size > 0
    ensures Around(size, Around(size, c, n), 1) == Around(size, c, n + 1)
  {
    var a := c + n;
    var q, r := a / size, a % size;
    if r + 1 < size {
      Remainder(size, q, r + 1, a + 1);
      Remainder(size, 0, r + 1, r + 1);
    } else {
      assert (q + 1) * size == q * size + size;
      Remainder(size, q + 1, 0, a + 1);
      Remainder(size, 1, 0, r + 1);
    }
  }

  lemma Remainder(size: nat, q: nat, r: nat, a: nat)
    requires r < size && a == q * size + r
    ensures a % size == r
  {
    var q', r' := a / size, a % size;
    assert (q' - q) * size == q' * size - q * size == r - r';
    assert (q - q') * size == r' - r;
    NoMultiple(q' - q, size);
    NoMultiple(q - q', size);
  }

  /** A number beyond the circle may be brought onto it first. */
  lemma AroundFrom(size: nat, a: nat, k: nat)
    requires size > 0
    ensures Around(size, a % size, k) == (a + k) % size
    ensures a + k < size ==> (a + k) % size == a + k
  {
    var q, r := a / size, a % size;
    var q', r' := (r + k) / size, (r + k) % size;
    assert (q + q') * size == q * size + q' * size;
    Remainder(size, q + q', r', a + k);
    if a + k < size { Remainder(size, 0, a + k, a + k); }
  }

  lemma {:induction false} ArcFits(size: nat, c: nat, used: set<nat>, n: nat)
    requires 0 < size && n <= size && Arc(size, c, n) <= used
    ensures n <= |used|
  {
    ArcSize(size, c, n);
    assert used == Arc(size, c, n) + (used - Arc(size, c, n));
  }

  /** Having found the first `n` numbers in use, the probe still ends at a free one: fewer
      than `size` are in use, so it cannot come full circle. */
  lemma {:induction false} ProbeOn(size: nat, c: nat, used: set<nat>, n: nat, k: nat)
    requires |used| < size && Arc(size, c, n) <= used && n <= |used|
    requires k == Probe(size, Around(size, c, n), used - Arc(size, c, n))
    ensures Around(size, c, n + k) !in used && Arc(size, c, n + k) <= used
    decreases |used| - n
  {
    hide Around;
    OffArc(size, c, n, n);
    var x, rest := Around(size, c, n), used - Arc(size, c, n);
    if x in used {
      AroundOnce(size, c, n);
      assert rest - {x} == used - Arc(size, c, n + 1);
      ArcFits(size, c, used, n + 1);
      ProbeOn(size, c, used, n + 1, k - 1);
    } else {
      assert k == 0;
    }
  }

  /** If fewer than `size` numbers are in use, the search ends at a free one, and all those it
      passed are in use. */
  lemma ProbeFindsFree(size: nat, c: nat, used: set<nat>)
    requires c < size && |used| < size
    ensures FirstFree(size, c, used) !in used && Arc(size, c, Probe(size, c, used)) <= used
  {
    Remainder(size, 0, c, c);
    assert Around(size, c, 0) == c;
    hide Around;
    assert Arc(size, c, 0) == {} && used - {} == used;
    ProbeOn(size, c, used, 0, Probe(size, c, used));
  }

  lemma {:induction false} OnArc(size: nat, c: nat, n: nat, i: nat)
    requires size > 0 && i < n
    ensures Around(size, c, i) in Arc(size, c, n)
  {
    if i < n - 1 { OnArc(size, c, n - 1, i); }
  }

  /** Away from the wrap, the first free number is the least one that is not below `c`. */
  lemma FirstFreeIsLeast(size: nat, c: nat, used: set<nat>, x: nat)
    requires c + |used| < size
    ensures FirstFree(size, c, used) >= c && FirstFree(size, c, used) !in used
    ensures c <= x < FirstFree(size, c, used) ==> x in used
  {
    var k := Probe(size, c, used);
    ProbeFindsFree(size, c, used);
    ProbeAtMost(size, c, used);
    Remainder(size, 0, c + k, c + k);
    if c <= x < c + k {
      OnArc(size, c, k, x - c);
      Remainder(size, 0, x, x);
    }
  }

  lemma {:induction false} ProbeAtMost(size: nat, c: nat, used: set<nat>)
    requires size > 0
    ensures Probe(size, c, used) <= |used|
    decreases |used|
  {
    if c in used { ProbeAtMost(size, Around(size, c, 1), used - {c}); }
  }

  // ------------------------------------------------------------------ the search as a loop

  /** A loop that tries one number after the other has found the first `n` from `c` on in use. */
  ghost predicate Tried(size: nat, c: nat, used: set<nat>, n: nat) {
    && c < size && |used| < size && Arc(size, c, n) <= used && n <= |used|
    && Probe(size, c, used) == n + Probe(size, Around(size, c, n), used - Arc(size, c, n))
  }

  lemma TriedNone(size: nat, c: nat, used: set<nat>)
    requires c < size && |used| < size
    ensures Tried(size, c, used, 0) && Around(size, c, 0) == c
  {
    Remainder(size, 0, c, c);
    assert used - Arc(size, c, 0) == used;
  }

  lemma TriedOne(size: nat, c: nat, used: set<nat>, n: nat)
    requires Tried(size, c, used, n) && Around(size, c, n) in used
    ensures Tried(size, c, used, n + 1) && n < |used|
    ensures Around(size, Around(size, c, n), 1) == Around(size, c, n + 1)
  {
    hide Around;
    AroundOnce(size, c, n);
    OffArc(size, c, n, n);
    var x := Around(size, c, n);
    assert used - Arc(size, c, n) - {x} == used - Arc(size, c, n + 1);
    ArcFits(size, c, used, n + 1);
  }

  lemma TriedEnough(size: nat, c: nat, used: set<nat>, n: nat)
    requires Tried(size, c, used, n) && Around(size, c, n) !in used
    ensures FirstFree(size, c, used) == Around(size, c, n) && Probe(size, c, used) == n
  {
  }
}
