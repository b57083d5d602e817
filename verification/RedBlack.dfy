/** Red-black trees as values: the theory both pointer trees of the repository refine.

    A tree node carries a reference `p` (the heap object it stands for) and an element `e`
    (what that object stores).  A `Path` is the way from a subtree up to the root, so that
    `Plug(path, t)` is a whole tree with `t` in focus.  The two fixup loops of the source
    are the step functions `InsertStep` here and `DeleteStep` in `Deletion` on such a focused tree. */
module RedBlack {

  datatype Color = Red | Black

  datatype Tree<P, E> =
    | Leaf
    | Node(color: Color, left: Tree<P, E>, p: P, e: E, right: Tree<P, E>)

  datatype Path<P, E> =
    | Top
    | InLeft(color: Color, p: P, e: E, right: Tree<P, E>, up: Path<P, E>)
    | InRight(color: Color, left: Tree<P, E>, p: P, e: E, up: Path<P, E>)

  /** A subtree in focus together with its surroundings. */
  datatype Loc<P, E> = Loc(path: Path<P, E>, t: Tree<P, E>)

  function Plug<P, E>(path: Path<P, E>, t: Tree<P, E>): Tree<P, E>
    decreases path
  {
    match path
    case Top => t
    case InLeft(c, p, e, r, up) => Plug(up, Node(c, t, p, e, r))
    case InRight(c, l, p, e, up) => Plug(up, Node(c, l, p, e, t))
  }

  lemma {:induction false} PlugNode<P, E>(path: Path<P, E>, t: Tree<P, E>)
    requires t.Node?
    ensures Plug(path, t).Node?
    decreases path
  {
    match path
    case Top =>
    case InLeft(c, p, e, r, up) => PlugNode(up, Node(c, t, p, e, r));
    case InRight(c, l, p, e, up) => PlugNode(up, Node(c, l, p, e, t));
  }

  function Whole<P, E>(loc: Loc<P, E>): Tree<P, E> {
    Plug(loc.path, loc.t)
  }

  function Depth<P, E>(path: Path<P, E>): nat {
    if path.Top? then 0 else 1 + Depth(path.up)
  }

  // ------------------------------------------------------------------ contents, in order

  function Items<P, E>(t: Tree<P, E>): seq<(P, E)> {
    match t
    case Leaf => []
    case Node(_, l, p, e, r) => Items(l) + [(p, e)] + Items(r)
  }

  function Before<P, E>(path: Path<P, E>): seq<(P, E)> {
    match path
    case Top => []
    case InLeft(_, _, _, _, up) => Before(up)
    case InRight(_, l, p, e, up) => Before(up) + Items(l) + [(p, e)]
  }

  function After<P, E>(path: Path<P, E>): seq<(P, E)> {
    match path
    case Top => []
    case InLeft(_, p, e, r, up) => [(p, e)] + Items(r) + After(up)
    case InRight(_, _, _, _, up) => After(up)
  }

  lemma Split<T>(a: seq<T>, l: seq<T>, x: T, r: seq<T>, b: seq<T>)
    ensures a + (l + [x] + r) + b == a + l + ([x] + r + b)
    ensures a + (l + [x] + r) + b == (a + l + [x]) + r + b
    ensures a + (l + [x] + r) + b == (a + l) + [x] + (r + b)
  {
  }

  lemma {:induction false} PlugItems<P, E>(path: Path<P, E>, t: Tree<P, E>)
    ensures Items(Plug(path, t)) == Before(path) + Items(t) + After(path)
    decreases path
  {
    match path
    case Top =>
    case InLeft(c, p, e, r, up) =>
      PlugItems(up, Node(c, t, p, e, r));
      Split(Before(up), Items(t), (p, e), Items(r), After(up));
    case InRight(c, l, p, e, up) =>
      PlugItems(up, Node(c, l, p, e, t));
      Split(Before(up), Items(l), (p, e), Items(t), After(up));
  }

  // ------------------------------------------------------------------ red-black invariants

  function RootColor<P, E>(t: Tree<P, E>): Color {
    if t.Leaf? then Black else t.color
  }

  function PathColor<P, E>(path: Path<P, E>): Color {
    if path.Top? then Black else path.color
  }

  function Weight(c: Color): nat {
    if c == Black then 1 else 0
  }

  /** Black nodes on the leftmost way down; `Balanced` makes it the number on every way. */
  function BlackHeight<P, E>(t: Tree<P, E>): nat {
    if t.Leaf? then 0 else BlackHeight(t.left) + Weight(t.color)
  }

  predicate Balanced<P, E>(t: Tree<P, E>) {
    t.Node? ==> Balanced(t.left) && Balanced(t.right) && BlackHeight(t.left) == BlackHeight(t.right)
  }

  predicate NoRedRed<P, E>(t: Tree<P, E>) {
    t.Node? ==>
      && NoRedRed(t.left) && NoRedRed(t.right)
      && (t.color == Red ==> RootColor(t.left) == Black && RootColor(t.right) == Black)
  }

  /** The invariant of a tree between operations. */
  predicate Valid<P, E>(t: Tree<P, E>) {
    RootColor(t) == Black && Balanced(t) && NoRedRed(t)
  }

  /** The surroundings are balanced around a subtree of black height `h`. */
  predicate PathBalanced<P, E>(path: Path<P, E>, h: nat)
    decreases path
  {
    match path
    case Top => true
    case InLeft(c, _, _, r, up) => Balanced(r) && BlackHeight(r) == h && PathBalanced(up, h + Weight(c))
    case InRight(c, l, _, _, up) => Balanced(l) && BlackHeight(l) == h && PathBalanced(up, h + Weight(c))
  }

  /** No red-red edge in the surroundings, and their root is black. */
  predicate PathNoRedRed<P, E>(path: Path<P, E>) {
    match path
    case Top => true
    case InLeft(c, _, _, r, up) =>
      && NoRedRed(r) && PathNoRedRed(up)
      && (c == Red ==> RootColor(r) == Black && PathColor(up) == Black && !up.Top?)
    case InRight(c, l, _, _, up) =>
      && NoRedRed(l) && PathNoRedRed(up)
      && (c == Red ==> RootColor(l) == Black && PathColor(up) == Black && !up.Top?)
  }

  /** A whole tree is valid exactly when focus, surroundings and the edge between them are. */
  lemma {:induction false} PlugValid<P, E>(path: Path<P, E>, t: Tree<P, E>)
    ensures Balanced(Plug(path, t)) <==> Balanced(t) && PathBalanced(path, BlackHeight(t))
    ensures RootColor(Plug(path, t)) == Black && NoRedRed(Plug(path, t)) <==>
            NoRedRed(t) && PathNoRedRed(path)
            && (RootColor(t) == Red ==> PathColor(path) == Black && !path.Top?)
    decreases path
  {
    match path
    case Top =>
    case InLeft(c, p, e, r, up) => PlugValid(up, Node(c, t, p, e, r));
    case InRight(c, l, p, e, up) => PlugValid(up, Node(c, l, p, e, t));
  }

  function Blacken<P, E>(t: Tree<P, E>): Tree<P, E> {
    if t.Leaf? then Leaf else t.(color := Black)
  }

  function Redden<P, E>(t: Tree<P, E>): Tree<P, E> {
    if t.Leaf? then Leaf else t.(color := Red)
  }

  // ------------------------------------------------------------------ rotations

  function RotateLeft<P, E>(t: Tree<P, E>): (r: Tree<P, E>)
    requires t.Node? && t.right.Node?
  {
    Node(t.right.color, Node(t.color, t.left, t.p, t.e, t.right.left), t.right.p, t.right.e, t.right.right)
  }

  function RotateRight<P, E>(t: Tree<P, E>): (r: Tree<P, E>)
    requires t.Node? && t.left.Node?
  {
    Node(t.left.color, t.left.left, t.left.p, t.left.e, Node(t.color, t.left.right, t.p, t.e, t.right))
  }

  lemma Regroup<T>(a: seq<T>, x: T, b: seq<T>, y: T, c: seq<T>)
    ensures (a + [x] + b) + [y] + c == a + [x] + (b + [y] + c)
  {
  }

  lemma {:induction false} RotateItems<P, E>(t: Tree<P, E>)
    requires t.Node?
    ensures t.right.Node? ==> Items(RotateLeft(t)) == Items(t)
    ensures t.left.Node? ==> Items(RotateRight(t)) == Items(t)
  {
    if t.right.Node? {
      var y := t.right;
      Regroup(Items(t.left), (t.p, t.e), Items(y.left), (y.p, y.e), Items(y.right));
    }
    if t.left.Node? {
      var x := t.left;
      Regroup(Items(x.left), (x.p, x.e), Items(x.right), (t.p, t.e), Items(t.right));
    }
  }

  // ------------------------------------------------------------------ insertion fixup

  /** What the insertion loop keeps: only the edge above the red focus may be wrong. */
  predicate InsertInv<P, E>(loc: Loc<P, E>) {
    && loc.t.Node? && loc.t.color == Red
    && Balanced(loc.t) && NoRedRed(loc.t)
    && PathBalanced(loc.path, BlackHeight(loc.t)) && PathNoRedRed(loc.path)
  }

  /** The loop runs on while the parent of the focus is red. */
  predicate InsertBusy<P, E>(loc: Loc<P, E>) {
    loc.t.Node? && PathColor(loc.path) == Red && !loc.path.up.Top?
  }

  /** One turn of the insertion loop. */
  function InsertStep<P, E>(loc: Loc<P, E>): (r: Loc<P, E>)
    requires InsertBusy(loc)
  {
    var path, t := loc.path, loc.t;
    match path.up
    case InLeft(_, g, eg, u, gup) =>
      if RootColor(u) == Red then
        var parent := if path.InLeft? then Node(Black, t, path.p, path.e, path.right)
                      else Node(Black, path.left, path.p, path.e, t);
        Loc(gup, Node(Red, parent, g, eg, Blacken(u)))
      else if path.InLeft? then
        Loc(InLeft(Black, path.p, path.e, Node(Red, path.right, g, eg, u), gup), t)
      else
        Loc(InLeft(Black, t.p, t.e, Node(Red, t.right, g, eg, u), gup),
            Node(Red, path.left, path.p, path.e, t.left))
    case InRight(_, u, g, eg, gup) =>
      if RootColor(u) == Red then
        var parent := if path.InLeft? then Node(Black, t, path.p, path.e, path.right)
                      else Node(Black, path.left, path.p, path.e, t);
        Loc(gup, Node(Red, Blacken(u), g, eg, parent))
      else if path.InRight? then
        Loc(InRight(Black, Node(Red, u, g, eg, path.left), path.p, path.e, gup), t)
      else
        Loc(InRight(Black, Node(Red, u, g, eg, t.left), t.p, t.e, gup),
            Node(Red, t.right, path.p, path.e, path.right))
  }

  lemma {:induction false} InsertStepKeepsInv<P, E>(loc: Loc<P, E>)
    requires InsertInv(loc) && InsertBusy(loc)
    ensures InsertInv(InsertStep(loc))
    ensures Depth(InsertStep(loc).path) < Depth(loc.path)
  {
    var path, t := loc.path, loc.t;
    var h := BlackHeight(t);
    assert PathBalanced(path.up, h);
    assert PathBalanced(path.up.up, h + 1);
    assert PathNoRedRed(path.up);
    var u := if path.up.InLeft? then path.up.right else path.up.left;
    assert Balanced(u) && NoRedRed(u) && BlackHeight(u) == h;
    assert Balanced(t.left) && Balanced(t.right) && BlackHeight(t.left) == BlackHeight(t.right) == h;
    var s := if path.InLeft? then path.right else path.left;
    assert Balanced(s) && NoRedRed(s) && BlackHeight(s) == h;
    if RootColor(u) == Red {
      assert Balanced(Blacken(u)) && NoRedRed(Blacken(u)) && BlackHeight(Blacken(u)) == h + 1;
    }
  }

  /** One level of plugging. */
  function Join<P, E>(path: Path<P, E>, t: Tree<P, E>): (r: Tree<P, E>)
    requires !path.Top?
    ensures Plug(path, t) == Plug(path.up, r)
  {
    match path
    case InLeft(c, p, e, r, _) => Node(c, t, p, e, r)
    case InRight(c, l, p, e, _) => Node(c, l, p, e, t)
  }

  lemma {:induction false} RefocusItems<P, E>(path: Path<P, E>, t: Tree<P, E>, t': Tree<P, E>)
    requires Items(t) == Items(t')
    ensures Items(Plug(path, t)) == Items(Plug(path, t'))
  {
    PlugItems(path, t);
    PlugItems(path, t');
  }

  lemma {:induction false} InsertStepItems<P, E>(loc: Loc<P, E>)
    requires InsertBusy(loc)
    ensures Items(Whole(InsertStep(loc))) == Items(Whole(loc))
  {
    var path, t := loc.path, loc.t;
    var parent := Join(path, t);
    var grand := Join(path.up, parent);
    var u := if path.up.InLeft? then path.up.right else path.up.left;
    var next := InsertStep(loc);
    if RootColor(u) == Red {
      RefocusItems(path.up.up, grand, next.t);
    } else if path.up.InLeft? {
      var parent' := if path.InRight? then RotateLeft(parent) else parent;
      RotateItems(parent);
      RotateItems(grand.(left := parent'));
      RefocusItems(path.up.up, grand, Join(next.path, next.t));
    } else {
      var parent' := if path.InLeft? then RotateRight(parent) else parent;
      RotateItems(parent);
      RotateItems(grand.(right := parent'));
      RefocusItems(path.up.up, grand, Join(next.path, next.t));
    }
  }

  lemma BlackenRoot<P, E>(t: Tree<P, E>)
    requires Balanced(t) && NoRedRed(Blacken(t))
    ensures Valid(Blacken(t)) && Items(Blacken(t)) == Items(t)
  {
  }

  /** The whole insertion fixup: the loop, then the root painted black. */
  function InsertFixup<P, E>(loc: Loc<P, E>): (r: Tree<P, E>)
    requires InsertInv(loc)
    ensures Valid(r) && Items(r) == Items(Whole(loc))
    decreases Depth(loc.path)
  {
    if PathColor(loc.path) == Red then
      InsertStepKeepsInv(loc);
      InsertStepItems(loc);
      InsertFixup(InsertStep(loc))
    else
      PlugValid(loc.path, loc.t);
      BlackenRoot(Whole(loc));
      Blacken(Whole(loc))
  }

  // ------------------------------------------------------------------ ways through a tree

  function Sibling<P, E>(path: Path<P, E>): Tree<P, E>
    requires !path.Top?
  {
    if path.InLeft? then path.right else path.left
  }

  /** The smallest node below the focus. */
  function Leftmost<P, E>(path: Path<P, E>, t: Tree<P, E>): (r: Loc<P, E>)
    requires t.Node?
    ensures r.t.Node? && r.t.left.Leaf? && Whole(r) == Plug(path, t)
    decreases t
  {
    if t.left.Leaf? then Loc(path, t)
    else Leftmost(InLeft(t.color, t.p, t.e, t.right, path), t.left)
  }

  /** The way `inner`, continued by the way `outer`. */
  function Append<P, E>(inner: Path<P, E>, outer: Path<P, E>): Path<P, E> {
    match inner
    case Top => outer
    case InLeft(c, p, e, r, up) => InLeft(c, p, e, r, Append(up, outer))
    case InRight(c, l, p, e, up) => InRight(c, l, p, e, Append(up, outer))
  }

  lemma {:induction false} PlugAppend<P, E>(inner: Path<P, E>, outer: Path<P, E>, t: Tree<P, E>)
    ensures Plug(Append(inner, outer), t) == Plug(outer, Plug(inner, t))
    decreases inner
  {
    if !inner.Top? {
      PlugAppend(inner.up, outer, Join(inner, t));
    }
  }

  lemma {:induction false} LeftmostAppend<P, E>(inner: Path<P, E>, outer: Path<P, E>, t: Tree<P, E>)
    requires t.Node?
    ensures Leftmost(Append(inner, outer), t)
         == Loc(Append(Leftmost(inner, t).path, outer), Leftmost(inner, t).t)
    decreases t
  {
    if t.left.Node? {
      LeftmostAppend(InLeft(t.color, t.p, t.e, t.right, inner), outer, t.left);
    }
  }

  /** The leftmost node comes first in order. */
  lemma {:induction false} LeftmostItem<P, E>(path: Path<P, E>, t: Tree<P, E>)
    requires t.Node?
    ensures Items(t) != [] && Items(t)[0] == (Leftmost(path, t).t.p, Leftmost(path, t).t.e)
    decreases t
  {
    if t.left.Node? {
      LeftmostItem(InLeft(t.color, t.p, t.e, t.right, path), t.left);
    }
  }

  lemma {:induction false} LeftmostFirst<P, E>(path: Path<P, E>, t: Tree<P, E>)
    requires t.Node?
    ensures Before(Leftmost(path, t).path) == Before(path)
    decreases t
  {
    if t.left.Node? {
      LeftmostFirst(InLeft(t.color, t.p, t.e, t.right, path), t.left);
    }
  }

  // ------------------------------------------------------------------ around a node that leaves or comes

  lemma CancelPrefix<T>(p: seq<T>, x: T, rest: seq<T>, a: seq<T>, r: seq<T>, b: seq<T>)
    requires p + ([x] + rest) + a == p + r + b
    ensures r + b == [x] + (rest + a)
  {
    assert p + ([x] + rest) + a == p + ([x] + (rest + a));
    assert p + r + b == p + (r + b);
    assert r + b == (p + (r + b))[|p|..];
    assert [x] + (rest + a) == (p + ([x] + (rest + a)))[|p|..];
  }

  lemma LeftlessItems<P, E>(t: Tree<P, E>)
    requires t.Node? && t.left.Leaf?
    ensures Items(t) == [(t.p, t.e)] + Items(t.right)
    ensures Items(t.left) + Items(t.right) == Items(t.right)
  {
  }

  /** A red node hung into an empty place is where the insertion fixup starts. */
  lemma AttachInv<P, E>(path: Path<P, E>, z: P, e: E)
    requires Valid(Plug(path, Leaf))
    ensures InsertInv(Loc(path, Node(Red, Leaf, z, e, Leaf)))
  {
    PlugValid(path, Leaf);
  }
}
