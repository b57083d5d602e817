/** Search order on integer keys on top of the red-black theory: what the tree of sleeping
    coroutines computes, as functions on trees, and what that means for the set of sleepers
    they stand for. */
module SleepOrder {
  import opened RedBlack
  import opened Deletion

  // ------------------------------------------------------------------ ascending items as a set

  ghost predicate Ascending<P>(s: seq<(P, nat)>) {
    forall i, j :: 0 <= i < j < |s| ==> s[i].1 < s[j].1
  }

  /** Where `k` belongs: everything before is smaller, everything after greater. */
  ghost predicate Splits<P>(a: seq<(P, nat)>, k: nat, b: seq<(P, nat)>) {
    && (forall i :: 0 <= i < |a| ==> a[i].1 < k)
    && (forall i :: 0 <= i < |b| ==> k < b[i].1)
  }

  ghost function Elements<P>(s: seq<(P, nat)>): set<(P, nat)> {
    set i | 0 <= i < |s| :: s[i]
  }

  ghost function KeysOf<P>(s: seq<(P, nat)>): set<nat> {
    set i | 0 <= i < |s| :: s[i].1
  }

  lemma SplitHere<P>(a: seq<(P, nat)>, x: (P, nat), b: seq<(P, nat)>)
    requires Ascending(a + [x] + b)
    ensures Splits(a, x.1, b) && Ascending(a + b)
  {
    var s := a + [x] + b;
    assert s[|a|] == x;
    forall i | 0 <= i < |a| ensures a[i].1 < x.1 { assert s[i] == a[i]; }
    forall i | 0 <= i < |b| ensures x.1 < b[i].1 { assert s[|a| + 1 + i] == b[i]; }
    hide Splits;
    LeaveOut(a, x, b);
  }

  lemma LeaveOut<P>(a: seq<(P, nat)>, x: (P, nat), b: seq<(P, nat)>)
    requires Ascending(a + [x] + b)
    ensures Ascending(a + b)
  {
    var s, s' := a + [x] + b, a + b;
    forall i, j | 0 <= i < j < |s'| ensures s'[i].1 < s'[j].1 {
      assert s'[i] == s[if i < |a| then i else i + 1];
      assert s'[j] == s[if j < |a| then j else j + 1];
    }
  }

  lemma JoinHere<P>(a: seq<(P, nat)>, x: (P, nat), b: seq<(P, nat)>)
    requires Ascending(a + b) && Splits(a, x.1, b)
    ensures Ascending(a + [x] + b)
  {
    var s := a + [x] + b;
    forall i, j | 0 <= i < j < |s| ensures s[i].1 < s[j].1 {
      if i != |a| && j != |a| {
        assert s[i] == (a + b)[if i < |a| then i else i - 1];
        assert s[j] == (a + b)[if j < |a| then j else j - 1];
      }
    }
  }

  /** One more item: one more member, with a key of its own. */
  lemma WithItem<P>(a: seq<(P, nat)>, x: (P, nat), b: seq<(P, nat)>)
    requires Splits(a, x.1, b)
    ensures Elements(a + [x] + b) == Elements(a + b) + {x} && x !in Elements(a + b)
    ensures KeysOf(a + [x] + b) == KeysOf(a + b) + {x.1} && x.1 !in KeysOf(a + b)
  {
    var s, r := a + [x] + b, a + b;
    assert s[|a|] == x;
    forall i | 0 <= i < |r| ensures r[i] in Elements(s) && r[i].1 in KeysOf(s) {
      assert r[i] == s[if i < |a| then i else i + 1];
    }
    forall i | 0 <= i < |s| && i != |a| ensures s[i] in Elements(r) && s[i].1 in KeysOf(r) {
      assert s[i] == r[if i < |a| then i else i - 1];
    }
  }

  // ------------------------------------------------------------------ descent by key

  function Seek<P>(path: Path<P, nat>, t: Tree<P, nat>, k: nat): (r: Loc<P, nat>)
    ensures Whole(r) == Plug(path, t)
    ensures r.t.Node? ==> r.t.e == k
    decreases t
  {
    if t.Leaf? then Loc(path, t)
    else if k < t.e then Seek(InLeft(t.color, t.p, t.e, t.right, path), t.left, k)
    else if k > t.e then Seek(InRight(t.color, t.left, t.p, t.e, path), t.right, k)
    else Loc(path, t)
  }

  lemma NodeItems<P>(t: Tree<P, nat>)
    requires t.Node?
    ensures Items(t) == Items(t.left) + [(t.p, t.e)] + Items(t.right)
  {
  }

  lemma NodeSplits<P>(path: Path<P, nat>, t: Tree<P, nat>)
    requires t.Node? && Ascending(Items(Plug(path, t)))
    ensures Splits(Before(path) + Items(t.left), t.e, Items(t.right) + After(path))
    ensures Items(Plug(path, t)) == (Before(path) + Items(t.left)) + [(t.p, t.e)] + (Items(t.right) + After(path))
  {
    PlugItems(path, t);
    NodeItems(t);
    hide Ascending, Splits, Items, Before, After, Plug;
    Split(Before(path), Items(t.left), (t.p, t.e), Items(t.right), After(path));
    SplitHere(Before(path) + Items(t.left), (t.p, t.e), Items(t.right) + After(path));
  }

  /** The descent ends where the key belongs. */
  lemma {:induction false} SeekSplits<P>(path: Path<P, nat>, t: Tree<P, nat>, k: nat)
    requires Ascending(Items(Plug(path, t))) && Splits(Before(path), k, After(path))
    ensures var r := Seek(path, t, k); r.t.Leaf? ==> Splits(Before(r.path), k, After(r.path))
    decreases t
  {
    hide Items, Ascending;
    if t.Node? {
      NodeSplits(path, t);
      if k < t.e {
        var way := InLeft(t.color, t.p, t.e, t.right, path);
        assert After(way) == [(t.p, t.e)] + (Items(t.right) + After(path));
        SeekSplits(way, t.left, k);
      } else if k > t.e {
        var way := InRight(t.color, t.left, t.p, t.e, path);
        assert Before(way) == (Before(path) + Items(t.left)) + [(t.p, t.e)];
        SeekSplits(way, t.right, k);
      }
    }
  }

  // ------------------------------------------------------------------ the operations on trees

  /** What holds between operations: a red-black tree in search order. */
  ghost predicate Good<P>(t: Tree<P, nat>) {
    Valid(t) && Ascending(Items(t))
  }

  /** The sleepers a tree stands for, each with its key, and the keys alone. */
  ghost function Sleepers<P>(t: Tree<P, nat>): set<(P, nat)> {
    Elements(Items(t))
  }

  ghost function Keys<P>(t: Tree<P, nat>): set<nat> {
    KeysOf(Items(t))
  }

  lemma NodeSleepers<P>(t: Tree<P, nat>)
    requires t.Node?
    ensures Sleepers(t.left) <= Sleepers(t) && (t.p, t.e) in Sleepers(t) && Sleepers(t.right) <= Sleepers(t)
  {
    NodeItems(t);
    ElementsAround(Items(t.left), (t.p, t.e), Items(t.right));
  }

  lemma ElementsAround<P>(a: seq<(P, nat)>, x: (P, nat), b: seq<(P, nat)>)
    ensures Elements(a) <= Elements(a + [x] + b) && x in Elements(a + [x] + b) && Elements(b) <= Elements(a + [x] + b)
  {
    var s := a + [x] + b;
    assert s[|a|] == x;
    forall i | 0 <= i < |a| ensures a[i] in Elements(s) { assert s[i] == a[i]; }
    forall i | 0 <= i < |b| ensures b[i] in Elements(s) { assert s[|a| + 1 + i] == b[i]; }
  }

  function Find<P>(t: Tree<P, nat>, k: nat): (r: Loc<P, nat>)
    ensures Whole(r) == t
    ensures r.t.Node? ==> r.t.e == k
  {
    Seek(Top, t, k)
  }

  /** A search finds a node exactly when the key is taken, and then the one who has it. */
  lemma FindAgrees<P>(t: Tree<P, nat>, k: nat)
    requires Ascending(Items(t))
    ensures Find(t, k).t.Node? <==> k in Keys(t)
    ensures Find(t, k).t.Node? ==> (Find(t, k).t.p, k) in Sleepers(t)
  {
    hide Seek;
    var r := Find(t, k);
    SeekSplits(Top, t, k);
    if r.t.Node? {
      NodeSplits(r.path, r.t);
      hide Items, Ascending, Elements, KeysOf;
      WithItem(Before(r.path) + Items(r.t.left), (r.t.p, k), Items(r.t.right) + After(r.path));
    } else {
      PlugItems(r.path, r.t);
      assert Items(t) == Before(r.path) + After(r.path);
    }
  }

  lemma KeyTaken<P>(t: Tree<P, nat>, x: (P, nat))
    requires x in Sleepers(t)
    ensures x.1 in Keys(t)
  {
  }

  /** Keys are never shared. */
  lemma OneOwner<P>(t: Tree<P, nat>, x: (P, nat), y: (P, nat))
    requires Ascending(Items(t)) && x in Sleepers(t) && y in Sleepers(t) && x.1 == y.1
    ensures x == y
  {
  }

  /** `RB_INSERT`: a taken key leaves the tree alone. */
  function Put<P>(t: Tree<P, nat>, z: P, k: nat): Tree<P, nat>
    requires Valid(t)
  {
    var at := Find(t, k);
    if at.t.Node? then t
    else
      AttachInv(at.path, z, k);
      InsertFixup(Loc(at.path, Node(Red, Leaf, z, k, Leaf)))
  }

  /** The items around the empty place where a key belongs. */
  lemma AttachItems<P>(path: Path<P, nat>, z: P, k: nat)
    ensures Items(Plug(path, Leaf)) == Before(path) + After(path)
    ensures Items(Plug(path, Node(Red, Leaf, z, k, Leaf))) == Before(path) + [(z, k)] + After(path)
  {
    PlugItems(path, Leaf);
    PlugItems(path, Node(Red, Leaf, z, k, Leaf));
    OneItem(z, k);
    hide Before, After, Plug;
  }

  lemma PutRefines<P>(t: Tree<P, nat>, z: P, k: nat)
    requires Good(t)
    ensures Good(Put(t, z, k))
    ensures k in Keys(t) ==> Put(t, z, k) == t
    ensures k !in Keys(t) ==> Sleepers(Put(t, z, k)) == Sleepers(t) + {(z, k)} && Keys(Put(t, z, k)) == Keys(t) + {k}
  {
    FindAgrees(t, k);
    SeekSplits(Top, t, k);
    hide Items, Seek, Ascending, Splits, Elements, KeysOf, InsertFixup, Before, After;
    var at := Find(t, k);
    if at.t.Leaf? {
      AttachInv(at.path, z, k);
      AttachItems(at.path, z, k);
      JoinHere(Before(at.path), (z, k), After(at.path));
      WithItem(Before(at.path), (z, k), After(at.path));
    }
  }

  lemma OneItem<P>(z: P, k: nat)
    ensures Items(Node(Red, Leaf, z, k, Leaf)) == [(z, k)]
  {
    var l: Tree<P, nat> := Leaf;
    assert Items(Node(Red, l, z, k, l)) == Items(l) + [(z, k)] + Items(l);
  }

  // ------------------------------------------------------------------ removal by splicing

  /** Where `RB_REMOVE` cuts: at the node itself, or with two children at its successor, which
      by then stands in the node's place. */
  function Spliced<P>(at: Loc<P, nat>): (r: Loc<P, nat>)
    requires at.t.Node?
    ensures Cuttable(r.t)
  {
    if at.t.left.Leaf? || at.t.right.Leaf? then at
    else
      var y := Leftmost(Top, at.t.right).t;
      Leftmost(InRight(at.t.color, at.t.left, y.p, y.e, at.path), at.t.right)
  }

  /** The successor's place before and after it has taken the node's: only the object and the
      key in the focus differ, whatever subtree `s` fills the place. */
  lemma {:induction false} SplicedAside<P>(at: Loc<P, nat>, s: Tree<P, nat>)
    requires at.t.Node? && at.t.left.Node? && at.t.right.Node?
    ensures var before := Leftmost(InRight(at.t.color, at.t.left, at.t.p, at.t.e, at.path), at.t.right);
            var inner := Leftmost(Top, at.t.right);
            && Whole(before) == Whole(at) && before.t == Spliced(at).t == inner.t
            && Plug(before.path, s) == Plug(at.path, at.t.(right := Plug(inner.path, s)))
            && Plug(Spliced(at).path, s)
               == Plug(at.path, at.t.(p := inner.t.p, e := inner.t.e, right := Plug(inner.path, s)))
            && before.path == Append(inner.path, InRight(at.t.color, at.t.left, at.t.p, at.t.e, at.path))
            && Spliced(at).path == Append(inner.path, InRight(at.t.color, at.t.left, inner.t.p, inner.t.e, at.path))
  {
    hide Leftmost;
    var inner := Leftmost(Top, at.t.right);
    var old1 := InRight(at.t.color, at.t.left, at.t.p, at.t.e, at.path);
    var new1 := InRight(at.t.color, at.t.left, inner.t.p, inner.t.e, at.path);
    LeftmostAppend(Top, old1, at.t.right);
    LeftmostAppend(Top, new1, at.t.right);
    PlugAppend(inner.path, old1, s);
    PlugAppend(inner.path, new1, s);
  }

  lemma SplicedValid<P>(at: Loc<P, nat>)
    requires at.t.Node? && Valid(Whole(at))
    ensures Valid(Whole(Spliced(at)))
  {
    if at.t.left.Node? && at.t.right.Node? {
      var y := Leftmost(Top, at.t.right).t;
      PlugValid(at.path, at.t);
      PlugValid(at.path, at.t.(p := y.p, e := y.e));
    }
  }

  /** The tree after removing the node in focus. */
  function Extract<P>(at: Loc<P, nat>): (r: Tree<P, nat>)
    requires at.t.Node? && Valid(Whole(at))
    ensures Valid(r)
  {
    SplicedValid(at);
    Cut(Spliced(at).path, Spliced(at).t)
  }

  lemma {:induction false} SuccessorItems<P>(at: Loc<P, nat>)
    requires at.t.Node? && at.t.left.Node? && at.t.right.Node?
    ensures var d := Spliced(at);
            var rest := Items(d.t.left) + Items(d.t.right) + After(d.path);
            && Before(d.path) == Before(at.path) + Items(at.t.left) + [(d.t.p, d.t.e)]
            && Items(at.t.right) + After(at.path) == [(d.t.p, d.t.e)] + rest
  {
    hide Items, Plug;
    var d := Spliced(at);
    var y := Leftmost(Top, at.t.right).t;
    var swapped := InRight(at.t.color, at.t.left, y.p, y.e, at.path);
    LeftmostAppend(Top, swapped, at.t.right);
    assert d == Leftmost(swapped, at.t.right) && d.t == y;
    LeftmostFirst(swapped, at.t.right);
    PlugItems(d.path, d.t);
    PlugItems(swapped, at.t.right);
    LeftlessItems(d.t);
    CancelPrefix(Before(swapped), (d.t.p, d.t.e), Items(d.t.right), After(d.path), Items(at.t.right), After(at.path));
  }

  /** Removal takes out exactly the item in focus. */
  lemma {:induction false} ExtractItems<P>(at: Loc<P, nat>)
    requires at.t.Node? && Valid(Whole(at))
    ensures Items(Extract(at)) == (Before(at.path) + Items(at.t.left)) + (Items(at.t.right) + After(at.path))
  {
    hide Items, Before, After, Plug, Leftmost;
    SplicedValid(at);
    var d := Spliced(at);
    CutItems(d.path, d.t);
    if at.t.left.Node? && at.t.right.Node? {
      SuccessorItems(at);
      var bl, rest := Before(at.path) + Items(at.t.left), Items(d.t.left) + Items(d.t.right) + After(d.path);
      assert Items(Extract(at)) == bl + ([(d.t.p, d.t.e)] + rest);
    }
  }

  lemma ExtractRefines<P>(at: Loc<P, nat>)
    requires at.t.Node? && Good(Whole(at))
    ensures Good(Extract(at)) && (at.t.p, at.t.e) in Sleepers(Whole(at))
    ensures Sleepers(Extract(at)) == Sleepers(Whole(at)) - {(at.t.p, at.t.e)}
    ensures Keys(Extract(at)) == Keys(Whole(at)) - {at.t.e}
  {
    ExtractItems(at);
    NodeSplits(at.path, at.t);
    hide Items, Before, After, Plug, Spliced, Cut, Ascending, Splits, Elements, KeysOf;
    var a, b := Before(at.path) + Items(at.t.left), Items(at.t.right) + After(at.path);
    SplitHere(a, (at.t.p, at.t.e), b);
    WithItem(a, (at.t.p, at.t.e), b);
  }

  // ------------------------------------------------------------------ first and last

  /** The greatest node below the focus. */
  function Rightmost<P>(path: Path<P, nat>, t: Tree<P, nat>): (r: Loc<P, nat>)
    requires t.Node?
    ensures r.t.Node? && r.t.right.Leaf? && Whole(r) == Plug(path, t)
    decreases t
  {
    if t.right.Leaf? then Loc(path, t)
    else Rightmost(InRight(t.color, t.left, t.p, t.e, path), t.right)
  }

  lemma {:induction false} RightmostItem<P>(path: Path<P, nat>, t: Tree<P, nat>)
    requires t.Node?
    ensures Items(t) != [] && Items(t)[|Items(t)| - 1] == (Rightmost(path, t).t.p, Rightmost(path, t).t.e)
    decreases t
  {
    if t.right.Node? {
      RightmostItem(InRight(t.color, t.left, t.p, t.e, path), t.right);
    }
  }

  /** `RB_MINMAX` ends at the least and at the greatest key. */
  lemma EndsAreExtremes<P>(t: Tree<P, nat>)
    requires t.Node? && Ascending(Items(t))
    ensures var lo, hi := Leftmost<P, nat>(Top, t).t, Rightmost<P>(Top, t).t;
            && (lo.p, lo.e) in Sleepers(t) && (hi.p, hi.e) in Sleepers(t)
            && forall k :: k in Keys(t) ==> lo.e <= k <= hi.e
  {
    LeftmostItem<P, nat>(Top, t);
    RightmostItem(Top, t);
    assert Items(t)[0] in Elements(Items(t)) && Items(t)[|Items(t)| - 1] in Elements(Items(t));
  }

  lemma EmptyMeansNone<P>(t: Tree<P, nat>)
    ensures t.Leaf? <==> Sleepers(t) == {}
    ensures t.Leaf? <==> Keys(t) == {}
  {
    if t.Node? {
      LeftmostItem<P, nat>(Top, t);
      assert Items(t)[0] in Elements(Items(t)) && Items(t)[0].1 in KeysOf(Items(t));
    }
  }
}
