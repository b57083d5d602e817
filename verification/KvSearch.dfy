/** Search order on top of the red-black theory: what the key-value engine computes, as
    functions on trees, and what that means for the map they stand for. */
module KvSearch {
  import opened RedBlack
  import opened Deletion
  import opened TreeHeight
  import opened CStrings

  // ------------------------------------------------------------------ sorted entries as a map

  ghost function Entries<P>(s: seq<(P, Entry)>): seq<Entry> {
    seq(|s|, i requires 0 <= i < |s| => s[i].1)
  }

  ghost predicate Sorted(s: seq<Entry>) {
    forall i, j :: 0 <= i < j < |s| ==> StrCmp(s[i].key, s[j].key) < 0
  }

  ghost predicate Below(s: seq<Entry>, k: CString) {
    forall i :: 0 <= i < |s| ==> StrCmp(s[i].key, k) < 0
  }

  ghost predicate Above(s: seq<Entry>, k: CString) {
    forall i :: 0 <= i < |s| ==> StrCmp(k, s[i].key) < 0
  }

  ghost function Dict(s: seq<Entry>): map<CString, CString> {
    if s == [] then map[] else map[s[0].key := s[0].value] + Dict(s[1..])
  }

  lemma MapAssoc<K, V>(a: map<K, V>, b: map<K, V>, c: map<K, V>)
    ensures a + (b + c) == (a + b) + c
  {
  }

  lemma {:induction false} DictConcat(a: seq<Entry>, b: seq<Entry>)
    ensures Dict(a + b) == Dict(a) + Dict(b)
  {
    var s := a + b;
    if a == [] {
      assert s == b;
    } else {
      DictConcat(a[1..], b);
      assert s[1..] == a[1..] + b && s[0] == a[0];
      MapAssoc(map[a[0].key := a[0].value], Dict(a[1..]), Dict(b));
    }
  }

  lemma {:induction false} NotInDict(s: seq<Entry>, k: CString)
    requires Below(s, k) || Above(s, k)
    ensures k !in Dict(s)
  {
    if s != [] {
      StrCmpEqual(s[0].key, k);
      StrCmpFlip(s[0].key, k);
      NotInDict(s[1..], k);
    }
  }

  /** A place in a sorted sequence: everything before is smaller, everything after greater. */
  ghost predicate Splits(a: seq<Entry>, k: CString, b: seq<Entry>) {
    Below(a, k) && Above(b, k)
  }

  lemma SplitHere(a: seq<Entry>, x: Entry, b: seq<Entry>)
    requires Sorted(a + [x] + b)
    ensures Splits(a, x.key, b) && Sorted(a + b)
  {
    var s := a + [x] + b;
    assert s[|a|] == x;
    forall i | 0 <= i < |a| ensures StrCmp(a[i].key, x.key) < 0 { assert s[i] == a[i]; }
    forall i | 0 <= i < |b| ensures StrCmp(x.key, b[i].key) < 0 { assert s[|a| + 1 + i] == b[i]; }
    forall i, j | 0 <= i < j < |a + b| ensures StrCmp((a + b)[i].key, (a + b)[j].key) < 0 {
      assert (a + b)[i] == s[if i < |a| then i else i + 1];
      assert (a + b)[j] == s[if j < |a| then j else j + 1];
    }
  }

  lemma SortedInsert(a: seq<Entry>, x: Entry, b: seq<Entry>)
    requires Sorted(a + b) && Splits(a, x.key, b)
    ensures Sorted(a + [x] + b)
  {
    var s := a + [x] + b;
    forall i, j | 0 <= i < j < |s| ensures StrCmp(s[i].key, s[j].key) < 0 {
      if i != |a| && j != |a| {
        assert s[i] == (a + b)[if i < |a| then i else i - 1];
        assert s[j] == (a + b)[if j < |a| then j else j - 1];
      } else if i == |a| {
        assert s[j] == b[j - |a| - 1];
      } else {
        assert s[i] == a[i];
      }
    }
  }

  lemma MapInsert<K, V>(a: map<K, V>, k: K, v: V, b: map<K, V>)
    requires k !in a && k !in b
    ensures k !in a + b
    ensures a + map[k := v] + b == (a + b)[k := v]
    ensures a + b == (a + map[k := v] + b) - {k}
  {
  }

  lemma DictOne(x: Entry)
    ensures Dict([x]) == map[x.key := x.value]
  {
    assert [x][1..] == [];
    assert map[x.key := x.value] + map[] == map[x.key := x.value];
  }

  lemma DictInsert(a: seq<Entry>, x: Entry, b: seq<Entry>)
    requires Splits(a, x.key, b)
    ensures x.key !in Dict(a + b)
    ensures Dict(a + [x] + b) == Dict(a + b)[x.key := x.value]
    ensures Dict(a + b) == Dict(a + [x] + b) - {x.key}
  {
    hide Dict, Below, Above;
    DictConcat(a + [x], b);
    DictConcat(a, [x]);
    DictConcat(a, b);
    NotInDict(a, x.key);
    NotInDict(b, x.key);
    DictOne(x);
    MapInsert(Dict(a), x.key, x.value, Dict(b));
  }

  // ------------------------------------------------------------------ descent by key

  function Seek<P>(path: Path<P, Entry>, t: Tree<P, Entry>, k: CString): (r: Loc<P, Entry>)
    ensures Whole(r) == Plug(path, t)
    ensures r.t.Node? ==> r.t.e.key == k
    decreases t
  {
    if t.Leaf? then Loc(path, t)
    else if StrCmp(k, t.e.key) < 0 then
      Seek(InLeft(t.color, t.p, t.e, t.right, path), t.left, k)
    else if StrCmp(k, t.e.key) > 0 then
      Seek(InRight(t.color, t.left, t.p, t.e, path), t.right, k)
    else
      StrCmpEqual(k, t.e.key);
      Loc(path, t)
  }

  /** A descent that ends in an empty place came there by the last comparison. */
  predicate OnKeySide<P>(path: Path<P, Entry>, k: CString) {
    !path.Top? ==> (path.InLeft? <==> StrCmp(k, path.e.key) < 0)
  }

  /** The contents of a whole tree around a focus, as entries. */
  lemma PlugEntries<P>(path: Path<P, Entry>, t: Tree<P, Entry>)
    ensures Entries(Items(Plug(path, t)))
         == Entries(Before(path)) + Entries(Items(t)) + Entries(After(path))
  {
    PlugItems(path, t);
  }

  lemma NodeEntries<P>(t: Tree<P, Entry>)
    requires t.Node?
    ensures Entries(Items(t)) == Entries(Items(t.left)) + [t.e] + Entries(Items(t.right))
  {
  }

  /** One step of the descent moves the rest of the node to the surroundings. */
  lemma DescendEntries<P>(path: Path<P, Entry>, t: Tree<P, Entry>)
    requires t.Node?
    ensures Entries(Before(InLeft(t.color, t.p, t.e, t.right, path))) == Entries(Before(path))
    ensures Entries(After(InLeft(t.color, t.p, t.e, t.right, path)))
         == [t.e] + (Entries(Items(t.right)) + Entries(After(path)))
    ensures Entries(Before(InRight(t.color, t.left, t.p, t.e, path)))
         == (Entries(Before(path)) + Entries(Items(t.left))) + [t.e]
    ensures Entries(After(InRight(t.color, t.left, t.p, t.e, path))) == Entries(After(path))
  {
    hide Items;
  }

  lemma NodeSplits<P>(path: Path<P, Entry>, t: Tree<P, Entry>)
    requires t.Node? && Sorted(Entries(Items(Plug(path, t))))
    ensures Splits(Entries(Before(path)) + Entries(Items(t.left)), t.e.key,
                   Entries(Items(t.right)) + Entries(After(path)))
  {
    hide Items, Before, After, Plug, Entries, Sorted;
    var a, l, r, b := Entries(Before(path)), Entries(Items(t.left)), Entries(Items(t.right)), Entries(After(path));
    PlugEntries(path, t);
    NodeEntries(t);
    assert a + (l + [t.e] + r) + b == (a + l) + [t.e] + (r + b);
    SplitHere(a + l, t.e, r + b);
  }

  /** The descent ends where the key belongs. */
  lemma {:induction false} SeekSplits<P>(path: Path<P, Entry>, t: Tree<P, Entry>, k: CString)
    requires Sorted(Entries(Items(Plug(path, t))))
    requires Splits(Entries(Before(path)), k, Entries(After(path)))
    ensures var r := Seek(path, t, k);
            if r.t.Leaf? then Splits(Entries(Before(r.path)), k, Entries(After(r.path)))
            else Splits(Entries(Before(r.path)) + Entries(Items(r.t.left)), k,
                        Entries(Items(r.t.right)) + Entries(After(r.path)))
    decreases t
  {
    hide Items, Before, After, Entries, Sorted;
    if t.Node? {
      NodeSplits(path, t);
      DescendEntries(path, t);
      if StrCmp(k, t.e.key) < 0 {
        AboveTrans(Entries(Items(t.right)) + Entries(After(path)), t.e.key, k);
        SeekSplits(InLeft(t.color, t.p, t.e, t.right, path), t.left, k);
      } else if StrCmp(k, t.e.key) > 0 {
        StrCmpFlip(k, t.e.key);
        BelowTrans(Entries(Before(path)) + Entries(Items(t.left)), t.e.key, k);
        SeekSplits(InRight(t.color, t.left, t.p, t.e, path), t.right, k);
      } else {
        StrCmpEqual(k, t.e.key);
      }
    }
  }

  lemma AboveTrans(s: seq<Entry>, m: CString, k: CString)
    requires Above(s, m) && StrCmp(k, m) < 0
    ensures Above(s, k)
  {
    forall i | 0 <= i < |s| ensures StrCmp(k, s[i].key) < 0 { StrCmpTrans(k, m, s[i].key); }
  }

  lemma BelowTrans(s: seq<Entry>, m: CString, k: CString)
    requires Below(s, m) && StrCmp(m, k) < 0
    ensures Below(s, k)
  {
    forall i | 0 <= i < |s| ensures StrCmp(s[i].key, k) < 0 { StrCmpTrans(s[i].key, m, k); }
  }

  // ------------------------------------------------------------------ the operations on trees

  /** What holds between operations: a red-black tree in search order. */
  ghost predicate Good<P>(t: Tree<P, Entry>) {
    Valid(t) && Sorted(Entries(Items(t)))
  }

  /** The map a tree stands for. */
  ghost function Contents<P>(t: Tree<P, Entry>): map<CString, CString> {
    Dict(Entries(Items(t)))
  }

  /** Where a search for `k` from the root ends. */
  function Find<P>(t: Tree<P, Entry>, k: CString): (r: Loc<P, Entry>)
    ensures Whole(r) == t
    ensures r.t.Node? ==> r.t.e.key == k
  {
    Seek(Top, t, k)
  }

  /** Contents around the end of a search, in the shape the insertion and removal lemmas need. */
  lemma FindSplits<P>(t: Tree<P, Entry>, k: CString) returns (a: seq<Entry>, b: seq<Entry>)
    requires Sorted(Entries(Items(t)))
    ensures Splits(a, k, b)
    ensures var r := Find(t, k);
            if r.t.Leaf?
            then a == Entries(Before(r.path)) && b == Entries(After(r.path)) && Entries(Items(t)) == a + b
            else && a == Entries(Before(r.path)) + Entries(Items(r.t.left))
                 && b == Entries(Items(r.t.right)) + Entries(After(r.path))
                 && Entries(Items(t)) == a + [r.t.e] + b
  {
    hide Items, Sorted, Seek, Entries, Plug;
    NothingAround<P>(k);
    SeekSplits(Top, t, k);
    var r := Find(t, k);
    PlugEntries(r.path, r.t);
    if r.t.Leaf? {
      a, b := Entries(Before(r.path)), Entries(After(r.path));
      EmptyEntries(r.t);
    } else {
      a := Entries(Before(r.path)) + Entries(Items(r.t.left));
      b := Entries(Items(r.t.right)) + Entries(After(r.path));
      NodeEntries(r.t);
      Split(Entries(Before(r.path)), Entries(Items(r.t.left)), r.t.e, Entries(Items(r.t.right)),
          Entries(After(r.path)));
    }
  }

  lemma NothingAround<P>(k: CString)
    ensures var top: Path<P, Entry> := Top; Splits(Entries(Before(top)), k, Entries(After(top)))
    ensures forall t: Tree<P, Entry> :: Plug(Top, t) == t
  {
  }

  lemma EmptyEntries<P>(t: Tree<P, Entry>)
    requires t.Leaf?
    ensures Entries(Items(t)) == []
  {
  }

  /** A search finds a node exactly when the map has the key, and then the right value. */
  lemma FindAgrees<P>(t: Tree<P, Entry>, k: CString)
    requires Sorted(Entries(Items(t)))
    ensures Find(t, k).t.Node? <==> k in Contents(t)
    ensures Find(t, k).t.Node? ==> Find(t, k).t.e.value == Contents(t)[k]
  {
    hide Items, Sorted, Seek, Dict, Entries;
    var r := Find(t, k);
    var a, b := FindSplits(t, k);
    if r.t.Node? {
      DictInsert(a, r.t.e, b);
    } else {
      DictInsert(a, Entry(k, []), b);
    }
  }

  /** `rbtree_insert`: an existing key leaves the tree alone. */
  function Put<P>(t: Tree<P, Entry>, z: P, e: Entry): Tree<P, Entry>
    requires Valid(t)
  {
    var at := Find(t, e.key);
    if at.t.Node? then t
    else
      AttachInv(at.path, z, e);
      InsertFixup(Loc(at.path, Node(Red, Leaf, z, e, Leaf)))
  }

  /** Insertion keeps order and balance and adds the binding unless the key was there. */
  lemma PutRefines<P>(t: Tree<P, Entry>, z: P, e: Entry)
    requires Good(t)
    ensures Good(Put(t, z, e))
    ensures Contents(Put(t, z, e)) == if e.key in Contents(t) then Contents(t) else Contents(t)[e.key := e.value]
    ensures e.key in Contents(t) ==> Put(t, z, e) == t
  {
    hide Items, Sorted, Seek, Dict, Entries, InsertFixup;
    FindAgrees(t, e.key);
    var at := Find(t, e.key);
    if at.t.Leaf? {
      var a, b := FindSplits(t, e.key);
      var t' := Node(Red, Leaf, z, e, Leaf);
      AttachInv(at.path, z, e);
      PlugEntries(at.path, t');
      OneEntry(z, e);
      SortedInsert(a, e, b);
      DictInsert(a, e, b);
    }
  }

  lemma OneEntry<P>(z: P, e: Entry)
    ensures Entries(Items(Node(Red, Leaf, z, e, Leaf))) == [e]
  {
    var l: Tree<P, Entry> := Leaf;
    assert Items(Node(Red, l, z, e, l)) == Items(l) + [(z, e)] + Items(l);
  }

  // ------------------------------------------------------------------ deletion

  /** `rbtree_delete` picks the node to cut out: the one in focus, or with two children its
      successor, whose entry first moves into the focus. */
  function Doomed<P>(at: Loc<P, Entry>): (r: Loc<P, Entry>)
    requires at.t.Node?
    ensures Cuttable(r.t)
  {
    if at.t.left.Leaf? || at.t.right.Leaf? then at
    else
      var y := Leftmost(Top, at.t.right).t;
      Leftmost(InRight(at.t.color, at.t.left, at.t.p, y.e, at.path), at.t.right)
  }

  /** The successor before and after its entry has moved: only the entry stored in the focus
      differs, wherever the cut-out node's place `s` is filled. */
  lemma {:induction false} DoomedAside<P>(at: Loc<P, Entry>, s: Tree<P, Entry>)
    requires at.t.Node? && at.t.left.Node? && at.t.right.Node?
    ensures var before := Leftmost(InRight(at.t.color, at.t.left, at.t.p, at.t.e, at.path), at.t.right);
            var inner := Leftmost(Top, at.t.right);
            && Whole(before) == Whole(at) && before.t == Doomed(at).t == inner.t
            && Plug(before.path, s) == Plug(at.path, at.t.(right := Plug(inner.path, s)))
            && Plug(Doomed(at).path, s) == Plug(at.path, at.t.(e := inner.t.e, right := Plug(inner.path, s)))
            && before.path == Append(inner.path, InRight(at.t.color, at.t.left, at.t.p, at.t.e, at.path))
            && Doomed(at).path == Append(inner.path, InRight(at.t.color, at.t.left, at.t.p, inner.t.e, at.path))
  {
    hide Leftmost;
    var inner := Leftmost(Top, at.t.right);
    var old1 := InRight(at.t.color, at.t.left, at.t.p, at.t.e, at.path);
    var new1 := InRight(at.t.color, at.t.left, at.t.p, inner.t.e, at.path);
    LeftmostAppend(Top, old1, at.t.right);
    LeftmostAppend(Top, new1, at.t.right);
    PlugAppend(inner.path, old1, s);
    PlugAppend(inner.path, new1, s);
  }

  /** Moving an entry does not touch colours or shape. */
  lemma SwapValid<P>(path: Path<P, Entry>, t: Tree<P, Entry>, e: Entry)
    requires t.Node? && Valid(Plug(path, t))
    ensures Valid(Plug(path, t.(e := e)))
  {
    PlugValid(path, t);
    PlugValid(path, t.(e := e));
  }

  lemma DoomedValid<P>(at: Loc<P, Entry>)
    requires at.t.Node? && Valid(Whole(at))
    ensures Valid(Whole(Doomed(at)))
  {
    if at.t.left.Node? && at.t.right.Node? {
      SwapValid(at.path, at.t, Leftmost(Top, at.t.right).t.e);
    }
  }

  /** The tree after deleting the node in focus. */
  function Erase<P>(at: Loc<P, Entry>): (r: Tree<P, Entry>)
    requires at.t.Node? && Valid(Whole(at))
    ensures Valid(r)
  {
    DoomedValid(at);
    Cut(Doomed(at).path, Doomed(at).t)
  }

  /** What stays after the successor's node is cut out: its entry has moved into the focus. */
  lemma {:induction false} SuccessorItems<P>(at: Loc<P, Entry>)
    requires at.t.Node? && at.t.left.Node? && at.t.right.Node?
    ensures var d := Doomed(at);
            var rest := Items(d.t.left) + Items(d.t.right) + After(d.path);
            && Before(d.path) == Before(at.path) + Items(at.t.left) + [(at.t.p, d.t.e)]
            && Items(at.t.right) + After(at.path) == [(d.t.p, d.t.e)] + rest
  {
    hide Items, Plug;
    var d := Doomed(at);
    var y := Leftmost(Top, at.t.right).t;
    var swapped := InRight(at.t.color, at.t.left, at.t.p, y.e, at.path);
    LeftmostAppend(Top, swapped, at.t.right);
    assert d == Leftmost(swapped, at.t.right) && d.t == y;
    LeftmostFirst(swapped, at.t.right);
    PlugItems(d.path, d.t);
    PlugItems(swapped, at.t.right);
    LeftlessItems(d.t);
    CancelPrefix(Before(swapped), (d.t.p, d.t.e), Items(d.t.right), After(d.path), Items(at.t.right), After(at.path));
  }

  lemma SameEntries<P>(p: P, q: P, e: Entry, rest: seq<(P, Entry)>)
    ensures Entries([(p, e)] + rest) == Entries([(q, e)] + rest)
  {
  }

  lemma EntriesConcat<P>(a: seq<(P, Entry)>, b: seq<(P, Entry)>)
    ensures Entries(a + b) == Entries(a) + Entries(b)
  {
  }

  lemma {:induction false} EraseEntries<P>(at: Loc<P, Entry>)
    requires at.t.Node? && Valid(Whole(at))
    ensures Entries(Items(Erase(at)))
         == (Entries(Before(at.path)) + Entries(Items(at.t.left)))
            + (Entries(Items(at.t.right)) + Entries(After(at.path)))
  {
    hide Items, Before, After, Plug, Leftmost, Entries;
    DoomedValid(at);
    var d := Doomed(at);
    CutItems(d.path, d.t);
    var bl, ra := Before(at.path) + Items(at.t.left), Items(at.t.right) + After(at.path);
    EntriesConcat(Before(at.path), Items(at.t.left));
    EntriesConcat(Items(at.t.right), After(at.path));
    if at.t.left.Node? && at.t.right.Node? {
      SuccessorItems(at);
      var rest := Items(d.t.left) + Items(d.t.right) + After(d.path);
      assert Items(Erase(at)) == bl + ([(at.t.p, d.t.e)] + rest);
      EntriesConcat(bl, [(at.t.p, d.t.e)] + rest);
      SameEntries(at.t.p, d.t.p, d.t.e, rest);
    } else {
      assert Items(Erase(at)) == bl + ra;
      EntriesConcat(bl, ra);
    }
  }

  /** Deletion keeps order and balance and removes exactly the key of the node in focus. */
  lemma EraseRefines<P>(t: Tree<P, Entry>, k: CString)
    requires Good(t) && k in Contents(t)
    ensures Find(t, k).t.Node?
    ensures Good(Erase(Find(t, k)))
    ensures Contents(Erase(Find(t, k))) == Contents(t) - {k}
  {
    hide Items, Sorted, Seek, Dict, Entries, Doomed, Cut;
    FindAgrees(t, k);
    var at := Find(t, k);
    var a, b := FindSplits(t, k);
    EraseEntries(at);
    SplitHere(a, at.t.e, b);
    DictInsert(a, at.t.e, b);
  }

  /** The tree after overwriting the value in the node in focus. */
  function Overwrite<P>(at: Loc<P, Entry>, value: CString): (r: Tree<P, Entry>)
    requires at.t.Node?
  {
    Plug(at.path, at.t.(e := Entry(at.t.e.key, value)))
  }

  lemma OverwriteRefines<P>(t: Tree<P, Entry>, k: CString, value: CString)
    requires Good(t) && k in Contents(t)
    ensures Find(t, k).t.Node?
    ensures Good(Overwrite(Find(t, k), value))
    ensures Contents(Overwrite(Find(t, k), value)) == Contents(t)[k := value]
  {
    hide Items, Sorted, Seek, Dict, Entries, RedBlack.Valid, Plug, Before, After;
    FindAgrees(t, k);
    var at := Find(t, k);
    var e := Entry(k, value);
    var t' := at.t.(e := e);
    var a, b := FindSplits(t, k);
    SwapValid(at.path, at.t, e);
    PlugEntries(at.path, t');
    NodeEntries(t');
    assert Entries(Items(Plug(at.path, t'))) == a + [e] + b;
    SplitHere(a, at.t.e, b);
    SortedInsert(a, e, b);
    DictInsert(a, e, b);
    DictInsert(a, at.t.e, b);
  }

  // ------------------------------------------------------------------ how long a search takes

  lemma {:induction false} DictSize(s: seq<Entry>)
    requires Sorted(s)
    ensures |Dict(s)| == |s|
  {
    if s != [] {
      var rest := s[1..];
      assert s == [] + [s[0]] + rest;
      SplitHere([], s[0], rest);
      NotInDict(rest, s[0].key);
      assert [] + rest == rest;
      DictSize(rest);
      var m := map[s[0].key := s[0].value];
      assert (m + Dict(rest)).Keys == {s[0].key} + Dict(rest).Keys;
    }
  }

  /** Comparisons a search makes from the root: one per level left behind, one more on a hit. */
  function Comparisons<P>(r: Loc<P, Entry>): nat {
    Depth(r.path) + (if r.t.Node? then 1 else 0)
  }

  lemma {:induction false} SeekDepth<P>(path: Path<P, Entry>, t: Tree<P, Entry>, k: CString)
    ensures Comparisons(Seek(path, t, k)) <= Depth(path) + Height(t)
    decreases t
  {
    if t.Node? {
      SeekDepth(InLeft(t.color, t.p, t.e, t.right, path), t.left, k);
      SeekDepth(InRight(t.color, t.left, t.p, t.e, path), t.right, k);
    }
  }

  /** A search in a good tree of n bindings makes at most 2 log2 (n + 1) comparisons. */
  lemma FindIsShort<P>(t: Tree<P, Entry>, k: CString)
    requires Good(t)
    ensures Pow2(Comparisons(Find(t, k))) <= (|Contents(t)| + 1) * (|Contents(t)| + 1)
  {
    hide Items, Seek, Sorted, Dict;
    SeekDepth(Top, t, k);
    Pow2Monotone(Comparisons(Find(t, k)), Height(t));
    HeightBound(t);
    DictSize(Entries(Items(t)));
  }
}
