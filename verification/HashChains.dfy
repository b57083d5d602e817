/** Chained hash tables as values: the hash function, placement by slot, and doubling.

    A chain lists node objects `P` with what they store, head first. */
module HashChains {
  import opened CStrings
  import opened Options

  const WORD: nat := 0x1_0000_0000

  const INITIAL_SLOTS: nat := 1024

  /** The largest table an `int` slot count can double to. */
  const MAX_SLOTS: nat := 0x4000_0000

  /** Table sizes: the initial size doubled some number of times. */
  predicate SizeOk(n: nat) {
    n == INITIAL_SLOTS || (n > INITIAL_SLOTS && n % 2 == 0 && SizeOk(n / 2))
  }

  lemma {:induction false} SizesApart(n: nat, m: nat)
    requires SizeOk(n) && SizeOk(m) && n < m
    ensures 2 * n <= m
    decreases m
  {
    if n < m / 2 {
      SizesApart(n, m / 2);
    } else if n > m / 2 {
      SizesApart(m / 2, n);
    }
  }

  /** The load test of the source, and what a doubling makes of it. */
  lemma Growth(count: nat, size: nat)
    requires SizeOk(size) && size <= MAX_SLOTS && 10 * count <= 7 * size && 10 * (count + 1) <= 7 * MAX_SLOTS
    ensures (count + 1) as real > size as real * 0.7 <==> 10 * (count + 1) > 7 * size
    ensures SizeOk(2 * size) && 10 * (count + 1) <= 14 * size
    ensures 10 * (count + 1) > 7 * size ==> 2 * size <= MAX_SLOTS
  {
    assert (2 * size) / 2 == size;
    assert SizeOk(MAX_SLOTS) by {
      MaxSizeOk();
    }
    if 10 * (count + 1) > 7 * size {
      SizesApart(size, MAX_SLOTS);
    }
  }

  lemma {:induction false} DoublingsOk(n: nat)
    requires SizeOk(n)
    ensures SizeOk(16 * n) && 16 * n > n
  {
    assert (2 * n) / 2 == n;
    assert (4 * n) / 2 == 2 * n;
    assert (8 * n) / 2 == 4 * n;
    assert (16 * n) / 2 == 8 * n;
    assert SizeOk(2 * n);
    assert SizeOk(4 * n);
    assert SizeOk(8 * n);
  }

  lemma MaxSizeOk()
    ensures SizeOk(MAX_SLOTS)
  {
    DoublingsOk(INITIAL_SLOTS);
    DoublingsOk(0x4000);
    DoublingsOk(0x4_0000);
    DoublingsOk(0x40_0000);
    DoublingsOk(0x400_0000);
  }

  // ------------------------------------------------------------------ the hash function

  /** `h = ((h << 5) + h) + c` on an unsigned 32-bit word. */
  function HashStep(h: nat, c: CChar): nat {
    (((h * 32) % WORD + h) % WORD + c) % WORD
  }

  function HashFrom(h: nat, key: CString): nat
    decreases |key|
  {
    if key == [] then h else HashFrom(HashStep(h, key[0]), key[1..])
  }

  function Slot(key: CString, size: nat): (i: nat)
    requires size > 0
    ensures i < size
  {
    HashFrom(5381, key) % size
  }

  /** The polynomial in 33 the fold would compute without a word size. */
  function PolyFrom(h: nat, key: CString): nat
    decreases |key|
  {
    if key == [] then h else PolyFrom(33 * h + key[0], key[1..])
  }

  lemma StepIsPoly(h: nat, c: CChar)
    ensures HashStep(h, c) == (33 * h + c) % WORD
  {
  }

  lemma ModStep(a: nat, b: nat, c: CChar)
    requires a % WORD == b % WORD
    ensures (33 * a + c) % WORD == (33 * b + c) % WORD
  {
    var qa, qb := a / WORD, b / WORD;
    assert 33 * a + c == (33 * (a % WORD) + c) + WORD * (33 * qa);
    assert 33 * b + c == (33 * (b % WORD) + c) + WORD * (33 * qb);
    AddMultiple(33 * (a % WORD) + c, 33 * qa, WORD);
    AddMultiple(33 * (b % WORD) + c, 33 * qb, WORD);
  }

  /** Remainders are unique. */
  lemma ModUnique(y: nat, q: nat, r: nat, m: nat)
    requires m > 0 && r < m && y == m * q + r
    ensures y % m == r && y / m == q
  {
    var q', r' := y / m, y % m;
    assert y == m * q' + r';
    assert q > q' ==> m * q >= m * (q' + 1);
    assert q < q' ==> m * q' >= m * (q + 1);
  }

  lemma AddMultiple(x: nat, k: nat, m: nat)
    requires m > 0
    ensures (x + m * k) % m == x % m
  {
    assert x + m * k == m * (x / m + k) + x % m;
    ModUnique(x + m * k, x / m + k, x % m, m);
  }

  lemma {:induction false} HashIsPoly(h: nat, g: nat, key: CString)
    requires h % WORD == g % WORD
    ensures HashFrom(h, key) % WORD == PolyFrom(g, key) % WORD
    decreases |key|
  {
    if key != [] {
      StepIsPoly(h, key[0]);
      ModStep(h, g, key[0]);
      HashIsPoly(HashStep(h, key[0]), 33 * g + key[0], key[1..]);
    }
  }

  lemma ModMod(x: nat, size: nat, m: nat)
    requires size > 0 && m > 0
    ensures (x % (size * m)) % size == x % size
  {
    var w := size * m;
    var q := x / w;
    assert x == (x % w) + size * (m * q) by {
      assert x == w * q + x % w;
      assert w * q == size * (m * q);
    }
    AddMultiple(x % w, m * q, size);
  }

  /** The wrapping fold picks the slot of the unbounded polynomial, for every table size that
      divides the word. */
  lemma SlotIsPoly(key: CString, size: nat, m: nat)
    requires size > 0 && size * m == WORD
    ensures Slot(key, size) == PolyFrom(5381, key) % size
  {
    HashIsPoly(5381, 5381, key);
    ModMod(HashFrom(5381, key), size, m);
    ModMod(PolyFrom(5381, key), size, m);
  }

  /** Every table size divides the word. */
  lemma {:induction false} SizeDividesWord(size: nat) returns (m: nat)
    requires SizeOk(size) && size <= MAX_SLOTS
    ensures size * m == WORD
    decreases MAX_SLOTS - size
  {
    if size == MAX_SLOTS {
      m := 4;
    } else {
      MaxSizeOk();
      SizesApart(size, MAX_SLOTS);
      assert (2 * size) / 2 == size;
      var half := SizeDividesWord(2 * size);
      m := 2 * half;
      assert size * m == (2 * size) * half;
    }
  }

  /** In every table the engine can reach, a key sits where the polynomial says. */
  lemma TableSlotIsPoly(key: CString, size: nat)
    requires SizeOk(size) && size <= MAX_SLOTS
    ensures size > 0 && Slot(key, size) == PolyFrom(5381, key) % size
  {
    var m := SizeDividesWord(size);
    SlotIsPoly(key, size, m);
  }

  /** Doubling sends slot i to i or to i + size. */
  lemma SlotDoubles(key: CString, size: nat)
    requires size > 0
    ensures Slot(key, 2 * size) % size == Slot(key, size)
    ensures Slot(key, 2 * size) == Slot(key, size) || Slot(key, 2 * size) == Slot(key, size) + size
  {
    var h := HashFrom(5381, key);
    ModMod(h, size, 2);
    assert h % (size * 2) == h % (2 * size);
    var s := h % (2 * size);
    if s < size {
      ModUnique(s, 0, s, size);
    } else {
      ModUnique(s, 1, s - size, size);
    }
  }

  // ------------------------------------------------------------------ chains

  type Chain<P> = seq<(P, Entry)>

  type Table<P> = seq<Chain<P>>

  /** Walking a chain for a key: the first match. */
  function Get<P>(c: Chain<P>, k: CString): Reply {
    if c == [] then None
    else if c[0].1.key == k then Some(c[0].1.value)
    else Get(c[1..], k)
  }

  predicate KeysDistinct<P>(c: Chain<P>) {
    forall i, j :: 0 <= i < j < |c| ==> c[i].1.key != c[j].1.key
  }

  predicate Absent<P>(c: Chain<P>, k: CString) {
    forall i :: 0 <= i < |c| ==> c[i].1.key != k
  }

  predicate Placed<P>(c: Chain<P>, i: nat, size: nat)
    requires size > 0
  {
    forall j :: 0 <= j < |c| ==> Slot(c[j].1.key, size) == i
  }

  /** Every key is in the chain of its slot, once. */
  predicate Sound<P>(t: Table<P>) {
    && |t| > 0
    && forall i :: 0 <= i < |t| ==> Placed(t[i], i, |t|) && KeysDistinct(t[i])
  }

  function Lookup<P>(t: Table<P>, k: CString): Reply
    requires |t| > 0
  {
    Get(t[Slot(k, |t|)], k)
  }

  /** The table answers every lookup as the map does. */
  ghost predicate Represents<P>(t: Table<P>, m: map<CString, CString>)
    requires |t| > 0
  {
    forall k :: Lookup(t, k) == if k in m then Some(m[k]) else None
  }

  lemma {:induction false} GetAbsent<P>(c: Chain<P>, k: CString)
    ensures Get(c, k) == None <==> Absent(c, k)
  {
    if c != [] {
      GetAbsent(c[1..], k);
      if Absent(c[1..], k) && c[0].1.key != k {
        forall i | 0 <= i < |c| ensures c[i].1.key != k {
          if i > 0 { assert c[i] == c[1..][i - 1]; }
        }
      }
    }
  }

  lemma {:induction false} GetConcat<P>(a: Chain<P>, b: Chain<P>, k: CString)
    ensures Get(a + b, k) == if Get(a, k) == None then Get(b, k) else Get(a, k)
  {
    if a == [] {
      assert a + b == b;
    } else {
      GetConcat(a[1..], b, k);
      assert (a + b)[1..] == a[1..] + b && (a + b)[0] == a[0];
    }
  }

  lemma GetOne<P>(x: (P, Entry), k: CString)
    ensures Get([x], k) == if x.1.key == k then Some(x.1.value) else None
  {
    assert [x][1..] == [];
  }

  /** A chain around one of its nodes: what the others answer. */
  lemma {:induction false} GetAround<P>(c: Chain<P>, j: nat, k: CString)
    requires j < |c| && KeysDistinct(c)
    ensures Absent(c[..j], c[j].1.key) && Absent(c[j + 1..], c[j].1.key)
    ensures Get(c, k) == if k == c[j].1.key then Some(c[j].1.value) else Get(c[..j] + c[j + 1..], k)
  {
    var a, x, b := c[..j], c[j], c[j + 1..];
    assert c == a + [x] + b;
    GetConcat(a + [x], b, k);
    GetConcat(a, [x], k);
    GetConcat(a, b, k);
    GetOne(x, k);
    GetAbsent(a, x.1.key);
  }

  /** The three ways a chain changes: a value overwritten, a node pushed, a node removed. */
  lemma {:induction false} GetOverwrite<P>(c: Chain<P>, j: nat, v: CString, k: CString)
    requires j < |c| && KeysDistinct(c)
    ensures var c' := c[j := (c[j].0, Entry(c[j].1.key, v))];
            && KeysDistinct(c')
            && Get(c', k) == if k == c[j].1.key then Some(v) else Get(c, k)
  {
    var c' := c[j := (c[j].0, Entry(c[j].1.key, v))];
    GetAround(c, j, k);
    GetAround(c', j, k);
    assert c'[..j] == c[..j] && c'[j + 1..] == c[j + 1..];
  }

  lemma {:induction false} GetPush<P>(c: Chain<P>, x: (P, Entry), k: CString)
    requires KeysDistinct(c) && Absent(c, x.1.key)
    ensures KeysDistinct([x] + c)
    ensures Get([x] + c, k) == if k == x.1.key then Some(x.1.value) else Get(c, k)
  {
    GetConcat([x], c, k);
    GetOne(x, k);
  }

  lemma {:induction false} GetRemove<P>(c: Chain<P>, j: nat, k: CString)
    requires j < |c| && KeysDistinct(c)
    ensures var c' := c[..j] + c[j + 1..];
            && KeysDistinct(c')
            && Get(c', k) == if k == c[j].1.key then None else Get(c, k)
  {
    var c' := c[..j] + c[j + 1..];
    forall i, i' | 0 <= i < i' < |c'| ensures c'[i].1.key != c'[i'].1.key {
      assert c'[i] == c[if i < j then i else i + 1];
      assert c'[i'] == c[if i' < j then i' else i' + 1];
    }
    GetAround(c, j, k);
    GetConcat(c[..j], c[j + 1..], k);
    GetAbsent(c[..j], c[j].1.key);
    GetAbsent(c[j + 1..], c[j].1.key);
  }

  /** Replacing the chain of one slot changes the answers for one key. */
  lemma ReplaceChain<P>(t: Table<P>, m: map<CString, CString>, k: CString, c': Chain<P>, v: Reply)
    requires Sound(t) && Represents(t, m)
    requires KeysDistinct(c') && Placed(c', Slot(k, |t|), |t|)
    requires forall k' :: Get(c', k') == if k' == k then v else Get(t[Slot(k, |t|)], k')
    ensures Sound(t[Slot(k, |t|) := c'])
    ensures Represents(t[Slot(k, |t|) := c'], if v == None then m - {k} else m[k := v.value])
  {
    var i := Slot(k, |t|);
    var t' := t[i := c'];
    var m' := if v == None then m - {k} else m[k := v.value];
    forall k' ensures Lookup(t', k') == if k' in m' then Some(m'[k']) else None {
      assert Lookup(t, k') == if k' in m then Some(m[k']) else None;
    }
  }

  lemma MapSizes(m: map<CString, CString>, k: CString, v: CString)
    ensures |m[k := v]| == if k in m then |m| else |m| + 1
    ensures |m - {k}| == if k in m then |m| - 1 else |m|
    ensures k !in m ==> m - {k} == m
  {
    assert m[k := v].Keys == m.Keys + {k};
    assert (m - {k}).Keys == m.Keys - {k};
  }

  /** A bucket is empty exactly when no key of the map belongs there. */
  lemma EmptyBucket<P>(t: Table<P>, m: map<CString, CString>, i: nat)
    requires Sound(t) && Represents(t, m) && i < |t|
    ensures t[i] == [] <==> forall x :: x in m ==> Slot(x, |t|) != i
  {
    hide Slot;
    if t[i] != [] {
      var k := t[i][0].1.key;
      assert Placed(t[i], i, |t|);
      AbsentKey(t, m, k);
      assert k in m;
    }
    forall x | x in m && t[i] == [] ensures Slot(x, |t|) != i {
      AbsentKey(t, m, x);
    }
  }

  lemma AbsentKey<P>(t: Table<P>, m: map<CString, CString>, k: CString)
    requires Sound(t) && Represents(t, m)
    ensures k in m <==> !Absent(t[Slot(k, |t|)], k)
  {
    GetAbsent(t[Slot(k, |t|)], k);
    assert Lookup(t, k) == if k in m then Some(m[k]) else None;
  }

  lemma PushChain<P>(t: Table<P>, m: map<CString, CString>, k: CString, x: (P, Entry))
    requires Sound(t) && Represents(t, m) && x.1.key == k && Absent(t[Slot(k, |t|)], k)
    ensures var i := Slot(k, |t|);
            Sound(t[i := [x] + t[i]]) && Represents(t[i := [x] + t[i]], m[k := x.1.value])
  {
    var i := Slot(k, |t|);
    var c' := [x] + t[i];
    forall k' ensures Get(c', k') == if k' == k then Some(x.1.value) else Get(t[i], k') {
      GetPush(t[i], x, k');
    }
    GetPush(t[i], x, k);
    ReplaceChain(t, m, k, c', Some(x.1.value));
  }

  lemma RemoveChain<P>(t: Table<P>, m: map<CString, CString>, k: CString, j: nat)
    requires Sound(t) && Represents(t, m) && j < |t[Slot(k, |t|)]| && t[Slot(k, |t|)][j].1.key == k
    ensures var i := Slot(k, |t|);
            var c' := t[i][..j] + t[i][j + 1..];
            Sound(t[i := c']) && Represents(t[i := c'], m - {k}) && k in m
  {
    var i := Slot(k, |t|);
    var c' := t[i][..j] + t[i][j + 1..];
    forall k' ensures Get(c', k') == if k' == k then None else Get(t[i], k') {
      GetRemove(t[i], j, k');
    }
    GetRemove(t[i], j, k);
    GetAround(t[i], j, k);
    assert Lookup(t, k) == if k in m then Some(m[k]) else None;
    ReplaceChain(t, m, k, c', None);
  }

  lemma OverwriteChain<P>(t: Table<P>, m: map<CString, CString>, k: CString, j: nat, v: CString)
    requires Sound(t) && Represents(t, m) && j < |t[Slot(k, |t|)]| && t[Slot(k, |t|)][j].1.key == k
    ensures var i := Slot(k, |t|);
            var c' := t[i][j := (t[i][j].0, Entry(k, v))];
            Sound(t[i := c']) && Represents(t[i := c'], m[k := v]) && k in m
  {
    var i := Slot(k, |t|);
    var c' := t[i][j := (t[i][j].0, Entry(k, v))];
    forall k' ensures Get(c', k') == if k' == k then Some(v) else Get(t[i], k') {
      GetOverwrite(t[i], j, v, k');
    }
    GetOverwrite(t[i], j, v, k);
    GetAround(t[i], j, k);
    assert Lookup(t, k) == if k in m then Some(m[k]) else None;
    ReplaceChain(t, m, k, c', Some(v));
  }

  // ------------------------------------------------------------------ doubling

  /** What the nodes of a chain, moved one by one, leave in slot `s` of a table of `size`. */
  function Spread<P>(c: Chain<P>, size: nat, s: nat): Chain<P>
    requires size > 0
  {
    if c == [] then []
    else
      var x := c[|c| - 1];
      var rest := Spread(c[..|c| - 1], size, s);
      if Slot(x.1.key, size) == s then [x] + rest else rest
  }

  lemma {:induction false} SpreadFrom<P>(c: Chain<P>, size: nat, s: nat)
    requires size > 0
    ensures Placed(Spread(c, size, s), s, size)
    ensures forall k :: Absent(c, k) ==> Absent(Spread(c, size, s), k)
    ensures KeysDistinct(c) ==> KeysDistinct(Spread(c, size, s))
  {
    if c != [] {
      var c', x := c[..|c| - 1], c[|c| - 1];
      SpreadFrom(c', size, s);
      forall k | Absent(c, k) ensures Absent(Spread(c, size, s), k) {
        assert Absent(c', k);
      }
      if KeysDistinct(c) {
        assert KeysDistinct(c') && Absent(c', x.1.key);
      }
    }
  }

  lemma {:induction false} SpreadGet<P>(c: Chain<P>, size: nat, s: nat, k: CString)
    requires size > 0 && KeysDistinct(c)
    ensures Get(Spread(c, size, s), k) == if Slot(k, size) == s then Get(c, k) else None
  {
    if c != [] {
      var c', x := c[..|c| - 1], c[|c| - 1];
      assert c == c' + [x] && KeysDistinct(c') && Absent(c', x.1.key);
      SpreadGet(c', size, s, k);
      GetConcat(c', [x], k);
      GetConcat([x], Spread(c', size, s), k);
      GetOne(x, k);
      GetAbsent(c', x.1.key);
    }
  }

  /** The table after `resize_hashtable`. */
  function Double<P>(t: Table<P>): Table<P>
    requires |t| > 0
  {
    seq(2 * |t|, s requires 0 <= s < 2 * |t| => Spread(t[s % |t|], 2 * |t|, s))
  }

  /** The new table while chain `i` is being moved and its first `j` nodes are done. */
  function Moved<P>(t: Table<P>, i: nat, j: nat): Table<P>
    requires i <= |t| && j <= (if i < |t| then |t[i]| else 0)
  {
    seq(2 * |t|, s requires 0 <= s < 2 * |t| =>
      if s % |t| < i then Spread(t[s % |t|], 2 * |t|, s)
      else if s % |t| == i then Spread(t[i][..j], 2 * |t|, s)
      else [])
  }

  /** Moving one more node pushes it on the chain of its new slot and on no other. */
  lemma MovedStep<P>(t: Table<P>, i: nat, j: nat)
    requires Sound(t) && i < |t| && j < |t[i]|
    ensures var s := Slot(t[i][j].1.key, 2 * |t|);
            && |Moved(t, i, j)| == 2 * |t| && s < 2 * |t|
            && Moved(t, i, j + 1) == Moved(t, i, j)[s := [t[i][j]] + Moved(t, i, j)[s]]
  {
    var n, x := |t|, t[i][j];
    var s := Slot(x.1.key, 2 * n);
    SlotDoubles(x.1.key, n);
    assert s % n == i;
    assert t[i][..j + 1][..j] == t[i][..j];
    assert t[i][..j + 1][|t[i][..j + 1]| - 1] == x;
    var a, b := Moved(t, i, j + 1), Moved(t, i, j)[s := [x] + Moved(t, i, j)[s]];
    forall r | 0 <= r < 2 * n ensures a[r] == b[r] {
    }
  }

  lemma MovedNext<P>(t: Table<P>, i: nat)
    requires i < |t|
    ensures Moved(t, i, |t[i]|) == Moved(t, i + 1, 0)
  {
    assert t[i][..|t[i]|] == t[i];
    var a, b := Moved(t, i, |t[i]|), Moved(t, i + 1, 0);
    forall s | 0 <= s < 2 * |t| ensures a[s] == b[s] {
      if s % |t| == i + 1 { assert t[i + 1][..0] == []; }
    }
  }

  lemma MovedFirst<P>(t: Table<P>)
    requires |t| > 0
    ensures |Moved(t, 0, 0)| == 2 * |t|
    ensures forall s :: 0 <= s < 2 * |t| ==> Moved(t, 0, 0)[s] == []
  {
    assert t[0][..0] == [];
  }

  lemma MovedLast<P>(t: Table<P>)
    requires |t| > 0
    ensures Moved(t, |t|, 0) == Double(t)
  {
    forall s | 0 <= s < 2 * |t| ensures Moved(t, |t|, 0)[s] == Double(t)[s] {
      assert s % |t| < |t|;
    }
  }

  /** Keys not moved yet are not in the new table. */
  lemma MovedAbsent<P>(t: Table<P>, i: nat, j: nat, s: nat)
    requires Sound(t) && i < |t| && j < |t[i]| && s < 2 * |t|
    ensures |Moved(t, i, j)| == 2 * |t|
    ensures Absent(Moved(t, i, j)[s], t[i][j].1.key)
  {
    var n, k := |t|, t[i][j].1.key;
    if s % n < i {
      assert Absent(t[s % n], k) by {
        assert Slot(k, n) == i;
      }
      SpreadFrom(t[s % n], 2 * n, s);
    } else if s % n == i {
      SpreadFrom(t[i][..j], 2 * n, s);
    }
  }

  lemma DoubleSound<P>(t: Table<P>)
    requires Sound(t)
    ensures Sound(Double(t)) && |Double(t)| == 2 * |t|
  {
    forall s | 0 <= s < 2 * |t| ensures Placed(Double(t)[s], s, 2 * |t|) && KeysDistinct(Double(t)[s]) {
      SpreadFrom(t[s % |t|], 2 * |t|, s);
    }
  }

  /** Doubling keeps every key in its slot, once, and every answer. */
  lemma DoubleRepresents<P>(t: Table<P>, m: map<CString, CString>)
    requires Sound(t) && Represents(t, m)
    ensures Sound(Double(t)) && Represents(Double(t), m)
  {
    var n, t' := |t|, Double(t);
    DoubleSound(t);
    forall k ensures Lookup(t', k) == if k in m then Some(m[k]) else None {
      var s := Slot(k, 2 * n);
      SlotDoubles(k, n);
      SpreadGet(t[s % n], 2 * n, s, k);
      assert Lookup(t, k) == if k in m then Some(m[k]) else None;
    }
  }
}
