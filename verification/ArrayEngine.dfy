/** The array engine of the key-value store: a fixed table with holes, where a high-water mark
    bounds the search. */
module ArrayEngine {
  import opened CStrings
  import opened Options

  const SIZE: nat := 1024

  datatype Slot = Hole | Full(e: Entry)

  // ------------------------------------------------------------------ the table as a value

  /** No slot at or above the mark is in use. */
  ghost predicate Marked(s: seq<Slot>, high: nat) {
    |s| == SIZE && high <= SIZE && forall i :: high <= i < |s| ==> s[i] == Hole
  }

  /** No key is stored twice. */
  ghost predicate Once(s: seq<Slot>) {
    forall i, j :: 0 <= i < j < |s| && s[i].Full? && s[j].Full? ==> s[i].e.key != s[j].e.key
  }

  ghost predicate HoldsAt(s: seq<Slot>, i: int, k: CString) {
    0 <= i < |s| && s[i].Full? && s[i].e.key == k
  }

  /** The place of the first slot that holds `k`, or the length of the table. */
  ghost predicate FirstWith(s: seq<Slot>, k: CString, i: int) {
    0 <= i <= |s| && (i < |s| ==> HoldsAt(s, i, k)) && forall j :: 0 <= j < i ==> !HoldsAt(s, j, k)
  }

  /** What a scan answers: the value in the first slot that holds the key. */
  function Read(s: seq<Slot>, k: CString): Reply {
    if s == [] then None
    else if s[0].Full? && s[0].e.key == k then Some(s[0].e.value)
    else Read(s[1..], k)
  }

  lemma {:induction false} ReadFirst(s: seq<Slot>, k: CString, i: nat)
    requires FirstWith(s, k, i)
    ensures Read(s, k) == if i < |s| then Some(s[i].e.value) else None
  {
    if s != [] && i > 0 {
      assert !HoldsAt(s, 0, k);
      forall j | 0 <= j < i - 1 ensures !HoldsAt(s[1..], j, k) {
        assert !HoldsAt(s, j + 1, k);
      }
      ReadFirst(s[1..], k, i - 1);
    }
  }

  lemma {:induction false} FirstExists(s: seq<Slot>, k: CString) returns (i: nat)
    ensures FirstWith(s, k, i)
  {
    i := 0;
    while i < |s| && !HoldsAt(s, i, k)
      invariant i <= |s| && forall j :: 0 <= j < i ==> !HoldsAt(s, j, k)
    {
      i := i + 1;
    }
  }

  /** The table stands for the map `m`: a scan answers what `m` has. */
  ghost predicate Represents(s: seq<Slot>, m: map<CString, CString>) {
    && Once(s)
    && (forall i :: 0 <= i < |s| && s[i].Full? ==> s[i].e.key in m && m[s[i].e.key] == s[i].e.value)
    && (forall k :: k in m ==> Stores(s, k))
  }

  ghost predicate Stores(s: seq<Slot>, k: CString) {
    exists i :: HoldsAt(s, i, k)
  }

  lemma ReadAgrees(s: seq<Slot>, m: map<CString, CString>, k: CString)
    requires Represents(s, m)
    ensures Read(s, k) == if k in m then Some(m[k]) else None
    ensures Stores(s, k) <==> k in m
  {
    var i := FirstExists(s, k);
    ReadFirst(s, k, i);
    if k in m {
      var j :| HoldsAt(s, j, k);
      assert i < |s|;
    }
    if i < |s| { assert HoldsAt(s, i, k); }
  }

  /** A new key in a hole. */
  lemma FillRepresents(s: seq<Slot>, m: map<CString, CString>, h: nat, k: CString, v: CString)
    requires Represents(s, m) && h < |s| && s[h] == Hole && k !in m
    ensures Represents(s[h := Full(Entry(k, v))], m[k := v])
  {
    var s' := s[h := Full(Entry(k, v))];
    forall x | x in m[k := v] ensures Stores(s', x) {
      if x == k {
        assert HoldsAt(s', h, x);
      } else {
        var i :| HoldsAt(s, i, x);
        assert HoldsAt(s', i, x);
      }
    }
  }

  lemma ClearRepresents(s: seq<Slot>, m: map<CString, CString>, i: nat, k: CString)
    requires Represents(s, m) && HoldsAt(s, i, k)
    ensures Represents(s[i := Hole], m - {k}) && k in m
  {
    var s' := s[i := Hole];
    forall x | x in m - {k} ensures Stores(s', x) {
      var j :| HoldsAt(s, j, x);
      assert HoldsAt(s', j, x);
    }
  }

  lemma WriteRepresents(s: seq<Slot>, m: map<CString, CString>, i: nat, k: CString, v: CString)
    requires Represents(s, m) && HoldsAt(s, i, k)
    ensures Represents(s[i := Full(Entry(k, v))], m[k := v]) && k in m
  {
    var s' := s[i := Full(Entry(k, v))];
    forall x | x in m[k := v] ensures Stores(s', x) {
      if x == k {
        assert HoldsAt(s', i, x);
      } else {
        var j :| HoldsAt(s, j, x);
        assert HoldsAt(s', j, x);
      }
    }
  }

  /** The keys in the first `n` slots. */
  ghost function Used(s: seq<Slot>, n: nat): set<CString>
    requires n <= |s|
  {
    if n == 0 then {}
    else if s[n - 1].Full? then Used(s, n - 1) + {s[n - 1].e.key} else Used(s, n - 1)
  }

  /** Each of them is in one of those slots. */
  lemma {:induction false} UsedSlot(s: seq<Slot>, n: nat, x: CString) returns (i: nat)
    requires n <= |s| && x in Used(s, n)
    ensures i < n && HoldsAt(s, i, x)
  {
    if x in Used(s, n - 1) { i := UsedSlot(s, n - 1, x); } else { i := n - 1; }
  }

  lemma {:induction false} UsedCount(s: seq<Slot>, n: nat)
    requires Once(s) && n <= |s| && forall i :: 0 <= i < n ==> s[i].Full?
    ensures |Used(s, n)| == n
  {
    if n > 0 {
      UsedCount(s, n - 1);
      var x := s[n - 1].e.key;
      assert HoldsAt(s, n - 1, x);
      if x in Used(s, n - 1) { var i := UsedSlot(s, n - 1, x); }
    }
  }

  /** A full table holds as many keys as it has slots. */
  lemma FullMeansMany(s: seq<Slot>, m: map<CString, CString>)
    requires Represents(s, m) && forall i :: 0 <= i < |s| ==> s[i].Full?
    ensures |m| >= |s|
  {
    var u := Used(s, |s|);
    forall x | x in u ensures x in m.Keys {
      var i := UsedSlot(s, |s|, x);
    }
    UsedCount(s, |s|);
    hide Represents, Used;
    assert m.Keys == u + (m.Keys - u);
    assert |m.Keys| == |m|;
  }

  /** There is only one first slot. */
  lemma OneFirst(s: seq<Slot>, k: CString, i: nat)
    requires FirstWith(s, k, i)
    ensures forall j :: FirstWith(s, k, j) ==> j == i
    ensures i < |s| <==> Stores(s, k)
  {
    if i < |s| { assert HoldsAt(s, i, k); }
    forall j | FirstWith(s, k, j) ensures j == i {
      assert j < i && j < |s| ==> HoldsAt(s, j, k);
      assert i < j && i < |s| ==> HoldsAt(s, i, k);
    }
  }

  ghost predicate FirstHole(s: seq<Slot>, h: int) {
    0 <= h < |s| && s[h] == Hole && forall i :: 0 <= i < h ==> s[i].Full?
  }

  lemma OneHole(s: seq<Slot>, h: nat)
    requires FirstHole(s, h)
    ensures forall g :: FirstHole(s, g) ==> g == h
  {
    forall g | FirstHole(s, g) ensures g == h {
      assert s[g] == Hole && s[h] == Hole;
    }
  }

  /** Where the key is found first once it is stored twice. */
  lemma DuplicateFirst(s: seq<Slot>, k: CString, v: CString, h: nat, i: nat)
    requires FirstWith(s, k, i) && i < |s| && h < |s| && s[h] == Hole
    ensures FirstWith(s[h := Full(Entry(k, v))], k, if h < i then h else i)
  {
    var s' := s[h := Full(Entry(k, v))];
    var n := if h < i then h else i;
    forall j | 0 <= j < n ensures !HoldsAt(s', j, k) {
      assert !HoldsAt(s, j, k);
    }
    assert HoldsAt(s', n, k);
  }

  /** A SET of a key that is there already stores it a second time: whichever copy comes first
      is read from then on, and the other one comes back once that one is deleted. */
  lemma DuplicateShadows(s: seq<Slot>, k: CString, v: CString, h: nat, i: nat)
    requires FirstWith(s, k, i) && i < |s| && h < |s| && s[h] == Hole
    ensures var s' := s[h := Full(Entry(k, v))];
            && Read(s', k) == Some(if h < i then v else s[i].e.value)
            && (h < i ==> Read(s'[h := Hole], k) == Some(s[i].e.value))
            && (i < h && Once(s) ==> Read(s'[i := Hole], k) == Some(v))
  {
    var s' := s[h := Full(Entry(k, v))];
    var n := if h < i then h else i;
    ReadFirst(s, k, i);
    forall j | 0 <= j < n ensures !HoldsAt(s', j, k) {
      assert !HoldsAt(s, j, k);
    }
    ReadFirst(s', k, n);
    assert s'[h := Hole] == s;
    if i < h && Once(s) {
      var s'' := s'[i := Hole];
      forall j | 0 <= j < h ensures !HoldsAt(s'', j, k) {
        assert j != i ==> !HoldsAt(s, j, k);
      }
      ReadFirst(s'', k, h);
    }
  }

  // ------------------------------------------------------------------ the engine

  class ArrayStore {
    const table: array<Slot>
    var idx: nat

    ghost predicate Valid()
      reads this, table
    {
      Marked(table[..], idx)
    }

    constructor ()
      ensures Valid() && fresh(table) && Represents(table[..], map[])
    {
      table := new Slot[SIZE](_ => Hole);
      idx := 0;
    }

    /** SET: into the first hole of the whole table, without looking for the key.  The first
        hole is never above the mark. */
    method Set(key: CString, value: CString) returns (ret: int)
      requires Valid()
      modifies this`idx, table
      ensures Valid()
      ensures ret == 0 <==> exists i :: 0 <= i < SIZE && old(table[i]) == Hole
      ensures ret != 0 ==> ret == -1 && table[..] == old(table[..]) && idx == old(idx)
      ensures ret == 0 ==>
                exists h :: FirstHole(old(table[..]), h) && h <= old(idx)
                         && table[..] == old(table[..])[h := Full(Entry(key, value))]
      ensures ret == 0 ==>
                forall m :: Represents(old(table[..]), m) && key !in m ==> Represents(table[..], m[key := value])
    {
      ghost var s := table[..];
      assert idx < SIZE ==> s[idx] == Hole;
      var i := 0;
      while i < SIZE && table[i].Full?
        invariant 0 <= i <= SIZE
        invariant forall j :: 0 <= j < i ==> table[j].Full?
      {
        i := i + 1;
      }
      if i == SIZE {
        return -1;
      }
      table[i] := Full(Entry(key, value));
      assert table[..] == s[i := Full(Entry(key, value))] && FirstHole(s, i);
      if i == idx {
        idx := idx + 1;
      }
      forall m | Represents(s, m) && key !in m ensures Represents(table[..], m[key := value]) {
        FillRepresents(s, m, i, key, value);
      }
      ret := 0;
    }

    /** The first slot below the mark that holds the key. */
    method Scan(key: CString) returns (i: nat)
      requires Valid()
      ensures i <= idx && (i < idx ==> FirstWith(table[..], key, i)) && (i == idx ==> FirstWith(table[..], key, SIZE))
    {
      i := 0;
      while i < idx
        invariant 0 <= i <= idx
        invariant forall j :: 0 <= j < i ==> !HoldsAt(table[..], j, key)
      {
        if table[i].Full? {
          StrCmpEqual(table[i].e.key, key);
          if StrCmp(table[i].e.key, key) == 0 {
            return;
          }
        }
        i := i + 1;
      }
    }

    method Get(key: CString) returns (value: Reply)
      requires Valid()
      ensures value == Read(table[..], key)
    {
      var i := Scan(key);
      if i < idx {
        ReadFirst(table[..], key, i);
        return Some(table[i].e.value);
      }
      ReadFirst(table[..], key, SIZE);
      return None;
    }

    /** DEL: empties the first slot that holds the key, and no other, and leaves the mark where
        it is. */
    method Delete(key: CString) returns (ret: int)
      requires Valid()
      modifies table
      ensures Valid() && (ret == 0 || ret == 1)
      ensures ret == 0 <==> Stores(old(table[..]), key)
      ensures ret != 0 ==> table[..] == old(table[..])
      ensures forall i :: FirstWith(old(table[..]), key, i) && i < SIZE ==> table[..] == old(table[..])[i := Hole]
      ensures forall m :: Represents(old(table[..]), m) ==> Represents(table[..], m - {key})
    {
      ghost var s := table[..];
      var i := Scan(key);
      if i < idx {
        OneFirst(s, key, i);
        table[i] := Hole;
        assert table[..] == s[i := Hole];
        forall m | Represents(s, m) ensures Represents(table[..], m - {key}) {
          ClearRepresents(s, m, i, key);
        }
        return 0;
      }
      OneFirst(s, key, SIZE);
      forall m | Represents(s, m) ensures Represents(table[..], m - {key}) {
        ReadAgrees(s, m, key);
        assert m - {key} == m;
      }
      return 1;
    }

    /** MOD: overwrites the value in the first slot that holds the key, and no other. */
    method Modify(key: CString, value: CString) returns (ret: int)
      requires Valid()
      modifies table
      ensures Valid() && (ret == 0 || ret == 1)
      ensures ret == 0 <==> Stores(old(table[..]), key)
      ensures ret != 0 ==> table[..] == old(table[..])
      ensures forall i :: FirstWith(old(table[..]), key, i) && i < SIZE ==>
                table[..] == old(table[..])[i := Full(Entry(key, value))]
      ensures ret == 0 ==>
                forall m :: Represents(old(table[..]), m) ==> Represents(table[..], m[key := value])
    {
      ghost var s := table[..];
      var i := Scan(key);
      if i < idx {
        OneFirst(s, key, i);
        table[i] := Full(Entry(table[i].e.key, value));
        assert table[..] == s[i := Full(Entry(key, value))];
        forall m | Represents(s, m) ensures Represents(table[..], m[key := value]) {
          WriteRepresents(s, m, i, key, value);
        }
        return 0;
      }
      OneFirst(s, key, SIZE);
      return 1;
    }
  }

  /** SET, GET, DEL and GET again of a key that is stored once already, while there is a hole: the
      copy that comes first is read, deleting it brings the other one back, and which is first
      depends on the place of the hole. */
  method Resurrect(a: ArrayStore, key: CString, value: CString) returns (first: Reply, second: Reply)
    requires a.Valid() && Once(a.table[..]) && Stores(a.table[..], key)
    requires exists h :: FirstHole(a.table[..], h)
    modifies a`idx, a.table
    ensures a.Valid()
    ensures forall i, h :: FirstWith(old(a.table[..]), key, i) && FirstHole(old(a.table[..]), h) ==>
              && first == (if h < i then Some(value) else old(Read(a.table[..], key)))
              && second == (if h < i then old(Read(a.table[..], key)) else Some(value))
  {
    ghost var s := a.table[..];
    ghost var i := FirstExists(s, key);
    ghost var h: nat :| FirstHole(s, h);
    ReadFirst(s, key, i);
    ghost var j :| HoldsAt(s, j, key);
    var ret := a.Set(key, value);
    OneHole(s, h);
    ghost var s' := a.table[..];
    assert s' == s[h := Full(Entry(key, value))];
    DuplicateShadows(s, key, value, h, i);
    ghost var n := if h < i then h else i;
    DuplicateFirst(s, key, value, h, i);
    first := a.Get(key);
    ret := a.Delete(key);
    assert a.table[..] == s'[n := Hole];
    second := a.Get(key);
    OneFirst(s, key, i);
  }
}
