/** Deletion from red-black trees as values: the fixup loop from a tree that is one black node
    short at the focus, and cutting out a node. */
module Deletion {
  import opened RedBlack

  // ------------------------------------------------------------------ deletion fixup

  /** What the deletion loop keeps: the focus is one black node short of its sibling, and
      only the edges at a red focus may be wrong. */
  predicate DeleteInv<P, E>(loc: Loc<P, E>) {
    && Balanced(loc.t) && NoRedRed(Blacken(loc.t))
    && PathBalanced(loc.path, BlackHeight(loc.t) + 1) && PathNoRedRed(loc.path)
  }

  /** The loop runs on while the focus is black and not the root. */
  predicate DeleteBusy<P, E>(loc: Loc<P, E>) {
    !loc.path.Top? && RootColor(loc.t) == Black
  }

  /** The way to the sibling of the focus. */
  function Across<P, E>(loc: Loc<P, E>): (r: Path<P, E>)
    requires !loc.path.Top?
    ensures Plug(r, Sibling(loc.path)) == Whole(loc)
  {
    match loc.path
    case InLeft(c, p, e, _, up) => InRight(c, loc.t, p, e, up)
    case InRight(c, _, p, e, up) => InLeft(c, p, e, loc.t, up)
  }

  /** A red sibling is rotated above the parent, so that the new sibling is black. */
  function LiftRedSibling<P, E>(loc: Loc<P, E>): (r: Loc<P, E>)
    requires !loc.path.Top? && Sibling(loc.path).Node?
  {
    match loc.path
    case InLeft(c, p, e, w, up) =>
      Loc(InLeft(Red, p, e, w.left, InLeft(Black, w.p, w.e, w.right, up)), loc.t)
    case InRight(c, w, p, e, up) =>
      Loc(InRight(Red, w.right, p, e, InRight(Black, w.left, w.p, w.e, up)), loc.t)
  }

  /** Both nephews black: the sibling turns red and the shortage moves up to the parent. */
  function PushUp<P, E>(loc: Loc<P, E>): (r: Loc<P, E>)
    requires !loc.path.Top? && Sibling(loc.path).Node?
  {
    match loc.path
    case InLeft(c, p, e, w, up) => Loc(up, Node(c, loc.t, p, e, Redden(w)))
    case InRight(c, w, p, e, up) => Loc(up, Node(c, Redden(w), p, e, loc.t))
  }

  /** The far nephew, on the other side of the sibling from the focus. */
  function FarNephew<P, E>(path: Path<P, E>): Tree<P, E>
    requires !path.Top? && Sibling(path).Node?
  {
    if path.InLeft? then path.right.right else path.left.left
  }

  function NearNephew<P, E>(path: Path<P, E>): Tree<P, E>
    requires !path.Top? && Sibling(path).Node?
  {
    if path.InLeft? then path.right.left else path.left.right
  }

  /** Far nephew black, near nephew red: a rotation at the sibling makes the far nephew red. */
  function TurnNephews<P, E>(loc: Loc<P, E>): (r: Loc<P, E>)
    requires !loc.path.Top? && Sibling(loc.path).Node? && NearNephew(loc.path).Node?
  {
    match loc.path
    case InLeft(c, p, e, w, up) =>
      loc.(path := loc.path.(right := RotateRight(Node(Red, Blacken(w.left), w.p, w.e, w.right))))
    case InRight(c, w, p, e, up) =>
      loc.(path := loc.path.(left := RotateLeft(Node(Red, w.left, w.p, w.e, Blacken(w.right)))))
  }

  /** What a rotation at the parent makes of the short subtree, its parent and its sibling. */
  function Paid<P, E>(loc: Loc<P, E>): (r: Tree<P, E>)
    requires !loc.path.Top? && Sibling(loc.path).Node?
    ensures r.Node?
  {
    match loc.path
    case InLeft(c, p, e, w, _) => Node(c, Node(Black, loc.t, p, e, w.left), w.p, w.e, Blacken(w.right))
    case InRight(c, w, p, e, _) => Node(c, Blacken(w.left), w.p, w.e, Node(Black, w.right, p, e, loc.t))
  }

  /** Far nephew red: that rotation pays for the missing black node. */
  function PayOff<P, E>(loc: Loc<P, E>): (r: Tree<P, E>)
    requires !loc.path.Top? && Sibling(loc.path).Node?
  {
    Plug(loc.path.up, Paid(loc))
  }

  lemma PayOffNode<P, E>(loc: Loc<P, E>)
    requires !loc.path.Top? && Sibling(loc.path).Node?
    ensures PayOff(loc).Node?
  {
    PlugNode(loc.path.up, Paid(loc));
  }

  predicate HasSibling<P, E>(path: Path<P, E>) {
    !path.Top? && Sibling(path).Node?
  }

  /** The part of a turn of the deletion loop after the sibling is known to be black. */
  function DeleteStepBlack<P, E>(loc: Loc<P, E>): (r: Loc<P, E>)
    requires HasSibling(loc.path)
  {
    if RootColor(NearNephew(loc.path)) == Black && RootColor(FarNephew(loc.path)) == Black then
      PushUp(loc)
    else if RootColor(FarNephew(loc.path)) == Black then
      Loc(Top, PayOff(TurnNephews(loc)))
    else
      Loc(Top, PayOff(loc))
  }

  lemma {:induction false} DeleteHasSibling<P, E>(loc: Loc<P, E>)
    requires DeleteInv(loc) && !loc.path.Top?
    ensures HasSibling(loc.path)
  {
  }

  lemma {:induction false} LiftKeepsInv<P, E>(loc: Loc<P, E>)
    requires DeleteInv(loc) && DeleteBusy(loc) && RootColor(Sibling(loc.path)) == Red
    ensures HasSibling(loc.path)
    ensures DeleteInv(LiftRedSibling(loc)) && HasSibling(LiftRedSibling(loc).path)
    ensures RootColor(Sibling(LiftRedSibling(loc).path)) == Black
    ensures Items(Whole(LiftRedSibling(loc))) == Items(Whole(loc))
  {
    DeleteHasSibling(loc);
    var w := Sibling(loc.path);
    assert Balanced(w.left) && Balanced(w.right) && NoRedRed(w.left) && NoRedRed(w.right);
    assert BlackHeight(w.left) == BlackHeight(w.right) == BlackHeight(w);
    var old1 := Join(loc.path, loc.t);
    var lifted := LiftRedSibling(loc);
    RotateItems(old1);
    RefocusItems(loc.path.up, old1, Join(lifted.path.up, Join(lifted.path, lifted.t)));
  }

  lemma {:induction false} PushUpKeepsInv<P, E>(loc: Loc<P, E>)
    requires DeleteInv(loc) && DeleteBusy(loc) && HasSibling(loc.path)
    requires RootColor(Sibling(loc.path)) == Black
    requires RootColor(NearNephew(loc.path)) == Black && RootColor(FarNephew(loc.path)) == Black
    ensures DeleteInv(PushUp(loc))
    ensures Items(Whole(PushUp(loc))) == Items(Whole(loc))
  {
    var w := Sibling(loc.path);
    assert Balanced(w.left) && Balanced(w.right) && BlackHeight(w.left) == BlackHeight(w.right);
    assert Balanced(Redden(w)) && NoRedRed(Redden(w)) && BlackHeight(Redden(w)) == BlackHeight(loc.t);
    RefocusItems(loc.path.up, Join(loc.path, loc.t), PushUp(loc).t);
  }

  lemma {:induction false} TurnKeepsInv<P, E>(loc: Loc<P, E>)
    requires DeleteInv(loc) && DeleteBusy(loc) && HasSibling(loc.path)
    requires RootColor(Sibling(loc.path)) == Black
    requires RootColor(NearNephew(loc.path)) == Red && RootColor(FarNephew(loc.path)) == Black
    ensures DeleteInv(TurnNephews(loc)) && HasSibling(TurnNephews(loc).path)
    ensures RootColor(Sibling(TurnNephews(loc).path)) == Black
    ensures RootColor(FarNephew(TurnNephews(loc).path)) == Red
    ensures Items(Whole(TurnNephews(loc))) == Items(Whole(loc))
  {
    var w, n, f := Sibling(loc.path), NearNephew(loc.path), FarNephew(loc.path);
    assert Balanced(n) && Balanced(f) && NoRedRed(n) && NoRedRed(f) && BlackHeight(n) == BlackHeight(f);
    assert Balanced(n.left) && Balanced(n.right) && BlackHeight(n.left) == BlackHeight(n.right);
    assert NoRedRed(n.left) && NoRedRed(n.right);
    var turned := TurnNephews(loc);
    var w' := Sibling(turned.path);
    var inner := if loc.path.InLeft? then w'.right else w'.left;
    assert Balanced(inner) && NoRedRed(inner) && BlackHeight(inner) == BlackHeight(n);
    assert Balanced(w') && NoRedRed(w') && BlackHeight(w') == BlackHeight(w);
    RotateItems(if loc.path.InLeft? then Node(Red, Blacken(w.left), w.p, w.e, w.right)
                else Node(Red, w.left, w.p, w.e, Blacken(w.right)));
    assert Items(w') == Items(w);
    RefocusItems(loc.path.up, Join(loc.path, loc.t), Join(turned.path, turned.t));
  }

  lemma {:induction false} PaidBalance<P, E>(loc: Loc<P, E>)
    requires DeleteInv(loc) && DeleteBusy(loc) && HasSibling(loc.path)
    requires RootColor(Sibling(loc.path)) == Black && RootColor(FarNephew(loc.path)) == Red
    ensures Balanced(Paid(loc)) && NoRedRed(Paid(loc))
    ensures BlackHeight(Paid(loc)) == BlackHeight(loc.t) + 1 + Weight(loc.path.color)
  {
    var n, f := NearNephew(loc.path), FarNephew(loc.path);
    assert Balanced(n) && Balanced(f) && NoRedRed(n) && NoRedRed(f) && BlackHeight(n) == BlackHeight(f);
    assert Balanced(Blacken(f)) && NoRedRed(Blacken(f)) && BlackHeight(Blacken(f)) == BlackHeight(f) + 1;
  }

  lemma {:induction false} PaidItems<P, E>(loc: Loc<P, E>)
    requires HasSibling(loc.path)
    ensures Items(Paid(loc)) == Items(Join(loc.path, loc.t))
  {
    RotateItems(Join(loc.path, loc.t));
  }

  lemma {:induction false} PayOffKeepsInv<P, E>(loc: Loc<P, E>)
    requires DeleteInv(loc) && DeleteBusy(loc) && HasSibling(loc.path)
    requires RootColor(Sibling(loc.path)) == Black && RootColor(FarNephew(loc.path)) == Red
    ensures DeleteInv(Loc(Top, PayOff(loc)))
    ensures Items(PayOff(loc)) == Items(Whole(loc))
  {
    PaidBalance(loc);
    PaidItems(loc);
    RefocusItems(loc.path.up, Join(loc.path, loc.t), Paid(loc));
    PlugValid(loc.path.up, Paid(loc));
  }

  /** One turn of the deletion loop. */
  function DeleteStep<P, E>(loc: Loc<P, E>): (r: Loc<P, E>)
    requires DeleteInv(loc) && DeleteBusy(loc)
    ensures DeleteInv(r)
    ensures Items(Whole(r)) == Items(Whole(loc))
    ensures DeleteMeasure(r) < DeleteMeasure(loc)
  {
    DeleteHasSibling(loc);
    if RootColor(Sibling(loc.path)) == Red then
      LiftKeepsInv(loc);
      DeleteStepBlackKeepsInv(LiftRedSibling(loc));
      DeleteStepBlack(LiftRedSibling(loc))
    else
      DeleteStepBlackKeepsInv(loc);
      DeleteStepBlack(loc)
  }

  /** Why the deletion loop stops: the focus climbs, or it turns red, or it is the root. */
  function DeleteMeasure<P, E>(loc: Loc<P, E>): nat {
    2 * Depth(loc.path) + (if RootColor(loc.t) == Black then 1 else 0)
  }

  lemma {:induction false} DeleteStepBlackKeepsInv<P, E>(loc: Loc<P, E>)
    requires DeleteInv(loc) && DeleteBusy(loc) && HasSibling(loc.path)
    requires RootColor(Sibling(loc.path)) == Black
    ensures DeleteInv(DeleteStepBlack(loc))
    ensures Items(Whole(DeleteStepBlack(loc))) == Items(Whole(loc))
    ensures DeleteStepBlack(loc).path == Top || DeleteStepBlack(loc) == PushUp(loc)
  {
    if RootColor(NearNephew(loc.path)) == Black && RootColor(FarNephew(loc.path)) == Black {
      PushUpKeepsInv(loc);
    } else if RootColor(FarNephew(loc.path)) == Black {
      TurnKeepsInv(loc);
      PayOffKeepsInv(TurnNephews(loc));
    } else {
      PayOffKeepsInv(loc);
    }
  }

  /** The whole deletion fixup: the loop, then the focus painted black. */
  function DeleteFixup<P, E>(loc: Loc<P, E>): (r: Tree<P, E>)
    requires DeleteInv(loc)
    ensures Valid(r) && Items(r) == Items(Whole(loc))
    decreases DeleteMeasure(loc)
  {
    if DeleteBusy(loc) then DeleteFixup(DeleteStep(loc))
    else
      BlackenFocus(loc);
      Plug(loc.path, Blacken(loc.t))
  }

  lemma {:induction false} BlackenFocus<P, E>(loc: Loc<P, E>)
    requires DeleteInv(loc) && !DeleteBusy(loc)
    ensures Valid(Plug(loc.path, Blacken(loc.t)))
    ensures Items(Plug(loc.path, Blacken(loc.t))) == Items(Whole(loc))
  {
    BlackenRoot(loc.t);
    PlugValid(loc.path, Blacken(loc.t));
    RefocusItems(loc.path, loc.t, Blacken(loc.t));
  }

  // ------------------------------------------------------------------ cutting out a node

  /** The child that takes the place of a node cut out by deletion. */
  function OnlyChild<P, E>(t: Tree<P, E>): Tree<P, E>
    requires t.Node?
  {
    if t.left.Node? then t.left else t.right
  }

  predicate Cuttable<P, E>(t: Tree<P, E>) {
    t.Node? && (t.left.Leaf? || t.right.Leaf?)
  }

  /** Cutting out a red node leaves a valid tree; a black one leaves a shortage. */
  lemma {:induction false} CutKeeps<P, E>(path: Path<P, E>, t: Tree<P, E>)
    requires Valid(Plug(path, t)) && Cuttable(t)
    ensures t.color == Black ==> DeleteInv(Loc(path, OnlyChild(t)))
    ensures t.color == Red ==> Valid(Plug(path, OnlyChild(t)))
  {
    PlugValid(path, t);
    var x := OnlyChild(t);
    assert BlackHeight(x) == 0;
    PlugValid(path, x);
  }

  /** The tree after cutting out the node in focus, which has at most one child. */
  function Cut<P, E>(path: Path<P, E>, t: Tree<P, E>): (r: Tree<P, E>)
    requires Valid(Plug(path, t)) && Cuttable(t)
    ensures Valid(r)
    ensures Items(r) == Items(Plug(path, OnlyChild(t)))
  {
    CutKeeps(path, t);
    if t.color == Black then DeleteFixup(Loc(path, OnlyChild(t)))
    else Plug(path, OnlyChild(t))
  }

  lemma {:induction false} CutItems<P, E>(path: Path<P, E>, t: Tree<P, E>)
    requires Cuttable(t)
    ensures Items(Plug(path, OnlyChild(t))) == Before(path) + Items(t.left) + Items(t.right) + After(path)
  {
    PlugItems(path, OnlyChild(t));
    assert Items(OnlyChild(t)) == Items(t.left) + Items(t.right);
  }
}
