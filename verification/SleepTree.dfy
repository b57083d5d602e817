/** The red-black tree of the coroutine library: node objects with parent links and null for
    the missing children, updated in place; removal splices a node out. */
module SleepTree {
  import opened RedBlack
  import opened Deletion
  import opened TreeLayout
  import opened SleepOrder

  class Coroutine {
    var color: Color
    var left: Coroutine?
    var right: Coroutine?
    var parent: Coroutine?
    var sleepUsecs: nat
    var sleeping: bool

    constructor ()
      ensures !sleeping && sleepUsecs == 0
    {
      sleeping, sleepUsecs := false, 0;
    }

    /** This object stores the given cell. */
    ghost predicate Holds(c: Cell<Coroutine?, nat>)
      reads this
    {
      color == c.color && left == c.left && right == c.right && parent == c.parent && sleepUsecs == c.e
    }
  }

  type Ref = Coroutine?
  type Shape = Tree<Ref, nat>
  type Way = Path<Ref, nat>
  type Place = Loc<Ref, nat>
  type Memory = map<Ref, Cell<Ref, nat>>

  lemma OutAndIn<T>(s: set<T>, x: T, y: T)
    requires x in s && y in s - {x}
    ensures s - {x} - {y} + {x} == s - {y}
  {
  }

  /** Every cell of a layout holds an item of the tree. */
  lemma {:induction false} CellItem(t: Shape, parent: Ref, nil: Ref, x: Ref)
    requires Proper(t) && x in Refs(t)
    ensures (x, Layout(t, parent, nil)[x].e) in SleepOrder.Sleepers(t)
  {
    NodeSleepers(t);
    ChildCells(t, parent, nil);
    hide SleepOrder.Sleepers;
    if x in Refs(t.left) {
      CellItem(t.left, t.p, nil, x);
    } else if x in Refs(t.right) {
      CellItem(t.right, t.p, nil, x);
    }
  }

  /** And every item of the tree is in the cell of its object. */
  lemma {:induction false} ItemCell(t: Shape, parent: Ref, nil: Ref, x: (Ref, nat))
    requires Proper(t) && x in SleepOrder.Sleepers(t)
    ensures x.0 in Refs(t) && Layout(t, parent, nil)[x.0].e == x.1
  {
    if t.Node? {
      NodeSleepers(t);
      ChildCells(t, parent, nil);
      SideOf(t, x);
      hide SleepOrder.Sleepers;
      if x in SleepOrder.Sleepers(t.left) {
        ItemCell(t.left, t.p, nil, x);
      } else if x in SleepOrder.Sleepers(t.right) {
        ItemCell(t.right, t.p, nil, x);
      }
    }
  }

  lemma SideOf(t: Shape, x: (Ref, nat))
    requires t.Node? && x in SleepOrder.Sleepers(t)
    ensures x in SleepOrder.Sleepers(t.left) || x == (t.p, t.e) || x in SleepOrder.Sleepers(t.right)
  {
    NodeItems(t);
  }

  class SleepTree {
    var root: Coroutine?

    /** The tree the node objects store, and these objects. */
    ghost var tree: Shape
    ghost var repr: set<Ref>

    ghost predicate Stores(m: Memory)
      reads m.Keys
    {
      forall n :: n in m ==> n != null && n.Holds(m[n])
    }

    /** The objects, followed from the root, are exactly `tree`. */
    ghost predicate Linked()
      reads this, Refs(tree)
    {
      && null !in Refs(tree) && repr == Refs(tree)
      && Proper(tree) && root == RootRef(tree, null)
      && Stores(Store(tree, null))
    }

    constructor ()
      ensures Linked() && tree == Leaf
    {
      root := null;
      tree := Leaf;
      repr := {};
    }

    // ---------------------------------------------------------------- reading the links

    /** What the object in focus holds. */
    lemma Look(path: Way, t: Shape)
      requires Linked() && tree == Plug(path, t) && t.Node?
      ensures t.p in Refs(tree) && t.p != null && null !in Refs(tree)
      ensures t.p.Holds(Cell(t.color, RootRef(t.left, null), RootRef(t.right, null), PathRef(path, null), t.e))
    {
      hide Plug, Refs, Proper, Layout;
      FocusCell(path, t, null);
    }

    /** What the object above the focus holds, and that the two are told apart. */
    lemma LookUp(path: Way, t: Shape)
      requires Linked() && tree == Plug(path, t) && !path.Top?
      ensures path.p in Refs(tree) && path.p != null && path.p.color == path.color
      ensures null !in Refs(tree)
      ensures path.p.parent == PathRef(path.up, null) && path.p.sleepUsecs == path.e
      ensures path.InLeft? ==> path.p.left == RootRef(t, null) && path.p.right == RootRef(path.right, null)
      ensures path.InRight? ==> path.p.left == RootRef(path.left, null) && path.p.right == RootRef(t, null)
      ensures t.Node? ==> path.p != t.p && RootRef(Sibling(path), null) != t.p
    {
      hide Plug, Refs, Proper, Layout;
      ParentCell(path, t, null);
    }

    /** Null stands for the missing children, and only for them. */
    lemma LookChildren(path: Way, t: Shape)
      requires Linked() && tree == Plug(path, t) && t.Node? && t.p != null
      ensures t.p.left == RootRef(t.left, null) && t.p.right == RootRef(t.right, null)
      ensures t.p.left == null <==> t.left.Leaf?
      ensures t.p.right == null <==> t.right.Leaf?
    {
      hide Linked, Refs;
      Look(path, t);
      if t.left.Node? { Look(InLeft(t.color, t.p, t.e, t.right, path), t.left); }
      if t.right.Node? { Look(InRight(t.color, t.left, t.p, t.e, path), t.right); }
    }

    lemma LookTop()
      requires Linked()
      ensures root == RootRef(tree, null) && tree == Plug(Top, tree)
      ensures tree.Node? <==> root != null
      ensures tree.Node? ==> root in Refs(tree)
    {
    }

    // ---------------------------------------------------------------- single updates

    /** The assignment of a colour, at the node in focus. */
    method Paint(n: Coroutine, c: Color, ghost path: Way, ghost t: Shape)
      requires Linked() && tree == Plug(path, t) && t.Node? && t.p == n
      modifies n`color, this`tree
      ensures Linked() && tree == Plug(path, t.(color := c)) && Refs(tree) == old(Refs(tree))
    {
      hide Plug, Refs, Proper, Layout, Store;
      PaintCells(path, t, c, t.e, null);
      FocusCell(path, t, null);
      PlugRoot(path, t, t.(color := c), null);
      ghost var m, m' := Store(tree, null), Store(Plug(path, t.(color := c)), null);
      assert Stores(m);
      n.color := c;
      assert n.Holds(m'[n]);
      forall k: Ref | k in m' && k != n ensures k != null && k.Holds(m'[k]) {
        assert k in m && m'[k] == m[k];
      }
      tree := Plug(path, t.(color := c));
    }

    /** A left rotation on the links of the four objects around `elm`. */
    method RotateLeft(elm: Coroutine)
      requires elm.right != null && elm.right != elm
      requires elm.right.left != elm && elm.right.left != elm.right
      requires elm.parent != elm && elm.parent != elm.right
      requires elm.right.left == null || elm.right.left != elm.parent
      modifies this`root, elm`right, elm`parent, elm.right`left, elm.right`parent
      modifies (if elm.right.left != null then {elm.right.left} else {})`parent
      modifies (if elm.parent != null then {elm.parent} else {})`left
      modifies (if elm.parent != null then {elm.parent} else {})`right
      ensures elm.right == old(elm.right.left) && elm.parent == old(elm.right)
      ensures old(elm.right).left == elm && old(elm.right).parent == old(elm.parent)
      ensures old(elm.right.left) != null ==> old(elm.right.left).parent == elm
      ensures root == if old(elm.parent) == null then old(elm.right) else old(root)
      ensures old(elm.parent) != null ==>
                var up, inLeft := old(elm.parent), old(elm.parent.left) == elm;
                && up.left == (if inLeft then old(elm.right) else old(elm.parent.left))
                && up.right == (if !inLeft then old(elm.right) else old(elm.parent.right))
    {
      var tmp := elm.right;
      elm.right := tmp.left;
      if elm.right != null {
        tmp.left.parent := elm;
      }
      tmp.parent := elm.parent;
      if tmp.parent != null {
        if elm == elm.parent.left {
          elm.parent.left := tmp;
        } else {
          elm.parent.right := tmp;
        }
      } else {
        root := tmp;
      }
      tmp.left := elm;
      elm.parent := tmp;
    }

    /** The same rotation, told as a change of memory. */
    method RotateLeftStored(x: Coroutine, ghost y: Ref, ghost b: Ref, ghost up: Ref, ghost m: Memory, ghost m': Memory)
      requires Stores(m) && TurnedLeft(m, m', x, y, b, up, null)
      modifies this`root, m.Keys`left, m.Keys`right, m.Keys`parent
      ensures Stores(m')
      ensures root == if up == null then y else old(root)
    {
      RotateLeft(x);
      assert x.Holds(m'[x]) && y.Holds(m'[y]);
      assert b in m ==> b.Holds(m'[b]);
      assert up in m ==> up.Holds(m'[up]);
      forall n | n in m && n != x && n != y && n != b && n != up ensures n != null && n.Holds(m'[n]) {
        assert old(n.Holds(m[n]));
      }
    }

    /** A left rotation at the node in focus. */
    method RotateLeftAt(x: Coroutine, ghost path: Way, ghost t: Shape)
      requires Linked() && tree == Plug(path, t) && t.Node? && t.p == x && t.right.Node?
      modifies this`root, this`tree, Refs(tree)`left, Refs(tree)`right, Refs(tree)`parent
      ensures Linked() && tree == Plug(path, RedBlack.RotateLeft(t)) && Refs(tree) == old(Refs(tree))
    {
      hide TurnedLeft, Stores, Plug, Refs, Proper, Layout, Store;
      RotateLeftCells(path, t, null);
      PlugRoot(path, t, RedBlack.RotateLeft(t), null);
      ghost var m, m' := Store(tree, null), Store(Plug(path, RedBlack.RotateLeft(t)), null);
      RotateLeftStored(x, t.right.p, RootRef(t.right.left, null), PathRef(path, null), m, m');
      tree := Plug(path, RedBlack.RotateLeft(t));
    }

    /** A right rotation on the links of the four objects around `elm`. */
    method RotateRight(elm: Coroutine)
      requires elm.left != null && elm.left != elm
      requires elm.left.right != elm && elm.left.right != elm.left
      requires elm.parent != elm && elm.parent != elm.left
      requires elm.left.right == null || elm.left.right != elm.parent
      modifies this`root, elm`left, elm`parent, elm.left`right, elm.left`parent
      modifies (if elm.left.right != null then {elm.left.right} else {})`parent
      modifies (if elm.parent != null then {elm.parent} else {})`left
      modifies (if elm.parent != null then {elm.parent} else {})`right
      ensures elm.left == old(elm.left.right) && elm.parent == old(elm.left)
      ensures old(elm.left).right == elm && old(elm.left).parent == old(elm.parent)
      ensures old(elm.left.right) != null ==> old(elm.left.right).parent == elm
      ensures root == if old(elm.parent) == null then old(elm.left) else old(root)
      ensures old(elm.parent) != null ==>
                var up, inLeft := old(elm.parent), old(elm.parent.left) == elm;
                && up.left == (if inLeft then old(elm.left) else old(elm.parent.left))
                && up.right == (if !inLeft then old(elm.left) else old(elm.parent.right))
    {
      var tmp := elm.left;
      elm.left := tmp.right;
      if elm.left != null {
        tmp.right.parent := elm;
      }
      tmp.parent := elm.parent;
      if tmp.parent != null {
        if elm == elm.parent.left {
          elm.parent.left := tmp;
        } else {
          elm.parent.right := tmp;
        }
      } else {
        root := tmp;
      }
      tmp.right := elm;
      elm.parent := tmp;
    }

    /** The same rotation, told as a change of memory. */
    method RotateRightStored(x: Coroutine, ghost y: Ref, ghost b: Ref, ghost up: Ref, ghost m: Memory, ghost m': Memory)
      requires Stores(m) && TurnedRight(m, m', x, y, b, up, null)
      modifies this`root, m.Keys`left, m.Keys`right, m.Keys`parent
      ensures Stores(m')
      ensures root == if up == null then y else old(root)
    {
      RotateRight(x);
      assert x.Holds(m'[x]) && y.Holds(m'[y]);
      assert b in m ==> b.Holds(m'[b]);
      assert up in m ==> up.Holds(m'[up]);
      forall n | n in m && n != x && n != y && n != b && n != up ensures n != null && n.Holds(m'[n]) {
        assert old(n.Holds(m[n]));
      }
    }

    /** A right rotation at the node in focus. */
    method RotateRightAt(x: Coroutine, ghost path: Way, ghost t: Shape)
      requires Linked() && tree == Plug(path, t) && t.Node? && t.p == x && t.left.Node?
      modifies this`root, this`tree, Refs(tree)`left, Refs(tree)`right, Refs(tree)`parent
      ensures Linked() && tree == Plug(path, RedBlack.RotateRight(t)) && Refs(tree) == old(Refs(tree))
    {
      hide TurnedRight, Stores, Plug, Refs, Proper, Layout, Store;
      RotateRightCells(path, t, null);
      PlugRoot(path, t, RedBlack.RotateRight(t), null);
      ghost var m, m' := Store(tree, null), Store(Plug(path, RedBlack.RotateRight(t)), null);
      RotateRightStored(x, t.left.p, RootRef(t.left.right, null), PathRef(path, null), m, m');
      tree := Plug(path, RedBlack.RotateRight(t));
    }

    // ---------------------------------------------------------------- insertion

    /** One turn of the insertion loop below a left parent; returns the next focus. */
    method InsertTurnLeft(elm0: Coroutine, ghost loc: Place) returns (elm: Coroutine)
      requires Linked() && tree == Whole(loc) && loc.t.Node? && loc.t.p == elm0
      requires InsertBusy(loc) && loc.path.up.InLeft?
      modifies this`root, this`tree, Refs(tree)`color, Refs(tree)`left, Refs(tree)`right, Refs(tree)`parent
      ensures Linked() && tree == Whole(InsertStep(loc)) && Refs(tree) == old(Refs(tree))
      ensures InsertStep(loc).t.Node? && elm == InsertStep(loc).t.p
    {
      hide Linked, Refs;
      elm := elm0;
      ghost var path, t := loc.path, loc.t;
      ghost var up, g, eg, u, gup := path.up, path.up.p, path.up.e, path.up.right, path.up.up;
      ghost var pt := Join(path, t);
      Look(path, t);
      LookUp(path, t);
      LookUp(up, pt);
      var parent := elm.parent;
      var gparent := parent.parent;
      var tmp := gparent.right;
      if u.Node? { Look(InRight(up.color, pt, g, eg, gup), u); }
      if tmp != null && tmp.color == Red {
        Paint(tmp, Black, InRight(up.color, pt, g, eg, gup), u);
        Paint(parent, Black, InLeft(up.color, g, eg, Blacken(u), gup), pt);
        Paint(gparent, Red, gup, Node(up.color, pt.(color := Black), g, eg, Blacken(u)));
        elm := gparent;
      } else {
        if parent.right == elm {
          RotateLeftAt(parent, up, pt);
          pt := RedBlack.RotateLeft(pt);
          parent, elm := elm, parent;
        }
        Paint(parent, Black, up, pt);
        pt := pt.(color := Black);
        Paint(gparent, Red, gup, Node(up.color, pt, g, eg, u));
        RotateRightAt(gparent, gup, Node(Red, pt, g, eg, u));
      }
    }

    /** One turn of the insertion loop below a right parent; returns the next focus. */
    method InsertTurnRight(elm0: Coroutine, ghost loc: Place) returns (elm: Coroutine)
      requires Linked() && tree == Whole(loc) && loc.t.Node? && loc.t.p == elm0
      requires InsertBusy(loc) && loc.path.up.InRight?
      modifies this`root, this`tree, Refs(tree)`color, Refs(tree)`left, Refs(tree)`right, Refs(tree)`parent
      ensures Linked() && tree == Whole(InsertStep(loc)) && Refs(tree) == old(Refs(tree))
      ensures InsertStep(loc).t.Node? && elm == InsertStep(loc).t.p
    {
      hide Linked, Refs;
      elm := elm0;
      ghost var path, t := loc.path, loc.t;
      ghost var up, g, eg, u, gup := path.up, path.up.p, path.up.e, path.up.left, path.up.up;
      ghost var pt := Join(path, t);
      Look(path, t);
      LookUp(path, t);
      LookUp(up, pt);
      var parent := elm.parent;
      var gparent := parent.parent;
      var tmp := gparent.left;
      if u.Node? { Look(InLeft(up.color, g, eg, pt, gup), u); }
      if tmp != null && tmp.color == Red {
        Paint(tmp, Black, InLeft(up.color, g, eg, pt, gup), u);
        Paint(parent, Black, InRight(up.color, Blacken(u), g, eg, gup), pt);
        Paint(gparent, Red, gup, Node(up.color, Blacken(u), g, eg, pt.(color := Black)));
        elm := gparent;
      } else {
        if parent.left == elm {
          RotateRightAt(parent, up, pt);
          pt := RedBlack.RotateRight(pt);
          parent, elm := elm, parent;
        }
        Paint(parent, Black, up, pt);
        pt := pt.(color := Black);
        Paint(gparent, Red, gup, Node(up.color, u, g, eg, pt));
        RotateLeftAt(gparent, gup, Node(Red, u, g, eg, pt));
      }
    }

    /** Does the loop go on: is there a red parent? */
    ghost predicate RedAbove(elm: Coroutine)
      reads elm, elm.parent
    {
      elm.parent != null && elm.parent.color == Red
    }

    /** The insertion fixup: the loop, then the root painted black. */
    method InsertColor(elm0: Coroutine, ghost at: Place)
      requires Linked() && tree == Whole(at) && InsertInv(at) && at.t.p == elm0
      modifies this`root, this`tree, Refs(tree)`color, Refs(tree)`left, Refs(tree)`right, Refs(tree)`parent
      ensures Linked() && tree == InsertFixup(at) && Refs(tree) == old(Refs(tree))
    {
      hide Linked, Refs, InsertStep;
      var elm := elm0;
      ghost var loc := at;
      Look(loc.path, loc.t);
      if !loc.path.Top? { LookUp(loc.path, loc.t); }
      while elm.parent != null && elm.parent.color == Red
        invariant Linked() && tree == Whole(loc) && InsertInv(loc) && loc.t.p == elm
        invariant InsertFixup(loc) == InsertFixup(at)
        invariant Refs(tree) == old(Refs(tree))
        invariant RedAbove(elm) <==> PathColor(loc.path) == Red
        decreases Depth(loc.path)
      {
        InsertStepKeepsInv(loc);
        Look(loc.path, loc.t);
        LookUp(loc.path, loc.t);
        LookUp(loc.path.up, Join(loc.path, loc.t));
        if elm.parent == elm.parent.parent.left {
          elm := InsertTurnLeft(elm, loc);
        } else {
          elm := InsertTurnRight(elm, loc);
        }
        loc := InsertStep(loc);
        Look(loc.path, loc.t);
        if !loc.path.Top? { LookUp(loc.path, loc.t); }
      }
      PlugNode(loc.path, loc.t);
      LookTop();
      Paint(root, Black, Top, tree);
    }

    // ---------------------------------------------------------------- removal fixup

    /** The focus of the removal loop: a node or null, and the node above it. */
    ghost predicate At(parent: Ref, elm: Ref, loc: Place)
      reads this, Refs(tree)
    {
      Linked() && tree == Whole(loc) && elm == RootRef(loc.t, null) && parent == PathRef(loc.path, null)
    }

    lemma LookAt(parent: Ref, elm: Ref, loc: Place)
      requires At(parent, elm, loc)
      ensures elm == root <==> loc.path.Top?
      ensures elm == null <==> loc.t.Leaf?
      ensures elm != null ==> elm in Refs(tree) && elm.color == loc.t.color && elm.parent == parent
    {
      hide Refs, Plug, Proper, Layout;
      RootElsewhere(loc.path, loc.t, null);
      if loc.t.Node? { Look(loc.path, loc.t); }
    }

    /** Black, where null counts as black. */
    predicate IsBlack(n: Ref)
      reads n
    {
      n == null || n.color == Black
    }

    /** The sibling and its children. */
    lemma LookNephews(loc: Place)
      requires Linked() && tree == Whole(loc) && HasSibling(loc.path)
      ensures var w := Sibling(loc.path);
              && w.p in Refs(tree) && w.p != null && null !in Refs(tree)
              && w.p.color == w.color && w.p.left == RootRef(w.left, null) && w.p.right == RootRef(w.right, null)
              && (w.left.Node? ==> w.left.p in Refs(tree))
              && (w.right.Node? ==> w.right.p in Refs(tree))
              && (IsBlack(w.p.left) <==> RootColor(w.left) == Black)
              && (IsBlack(w.p.right) <==> RootColor(w.right) == Black)
    {
      hide Linked, Refs;
      var w := Sibling(loc.path);
      var wpath := Across(loc);
      Look(wpath, w);
      if w.left.Node? { Look(InLeft(w.color, w.p, w.e, w.right, wpath), w.left); }
      if w.right.Node? { Look(InRight(w.color, w.left, w.p, w.e, wpath), w.right); }
    }

    /** A red sibling on the right is turned above the parent. */
    method LiftFromRight(parent: Coroutine, ghost loc: Place)
      requires At(parent, RootRef(loc.t, null), loc) && loc.path.InLeft? && HasSibling(loc.path)
      modifies this`root, this`tree, Refs(tree)`color, Refs(tree)`left, Refs(tree)`right, Refs(tree)`parent
      ensures At(parent, RootRef(loc.t, null), LiftRedSibling(loc)) && Refs(tree) == old(Refs(tree))
    {
      hide Linked, Refs;
      ghost var InLeft(c, p, e, wt, up) := loc.path;
      LookUp(loc.path, loc.t);
      LookNephews(loc);
      var tmp := parent.right;
      Paint(tmp, Black, Across(loc), wt);
      Paint(parent, Red, up, Node(c, loc.t, p, e, wt.(color := Black)));
      RotateLeftAt(parent, up, Node(Red, loc.t, p, e, wt.(color := Black)));
      ghost var next := LiftRedSibling(loc);
      assert Join(next.path.up, Join(next.path, next.t)) == RedBlack.RotateLeft(Node(Red, loc.t, p, e,
          wt.(color := Black)));
    }

    /** The sibling on the right is turned below its red left child. */
    method TurnRightNephews(parent: Coroutine, ghost loc: Place)
      requires At(parent, RootRef(loc.t, null), loc) && loc.path.InLeft? && HasSibling(loc.path)
          && NearNephew(loc.path).Node?
      modifies this`root, this`tree, Refs(tree)`color, Refs(tree)`left, Refs(tree)`right, Refs(tree)`parent
      ensures At(parent, RootRef(loc.t, null), TurnNephews(loc)) && Refs(tree) == old(Refs(tree))
    {
      hide Linked, Refs;
      ghost var InLeft(c, p, e, wt, up) := loc.path;
      ghost var wpath := Across(loc);
      LookUp(loc.path, loc.t);
      LookNephews(loc);
      var tmp := parent.right;
      var oleft := tmp.left;
      if oleft != null {
        Paint(oleft, Black, InLeft(wt.color, wt.p, wt.e, wt.right, wpath), wt.left);
      }
      Paint(tmp, Red, wpath, wt.(left := Blacken(wt.left)));
      RotateRightAt(tmp, wpath, Node(Red, Blacken(wt.left), wt.p, wt.e, wt.right));
      ghost var next := TurnNephews(loc);
      assert Join(next.path, next.t) == Join(wpath, Sibling(next.path));
    }

    /** The parent is turned below the sibling on the right, which takes its colour. */
    method PayOffFromRight(parent: Coroutine, ghost loc: Place)
      requires At(parent, RootRef(loc.t, null), loc) && loc.path.InLeft? && HasSibling(loc.path)
          && FarNephew(loc.path).Node?
      modifies this`root, this`tree, Refs(tree)`color, Refs(tree)`left, Refs(tree)`right, Refs(tree)`parent
      ensures Linked() && tree == PayOff(loc) && Refs(tree) == old(Refs(tree))
    {
      hide Linked, Refs;
      ghost var InLeft(c, p, e, wt, up) := loc.path;
      ghost var wpath := Across(loc);
      LookUp(loc.path, loc.t);
      LookNephews(loc);
      var tmp := parent.right;
      Paint(tmp, parent.color, wpath, wt);
      wt := wt.(color := c);
      Paint(parent, Black, up, Node(c, loc.t, p, e, wt));
      if tmp.right != null {
        Paint(tmp.right, Black, InRight(c, wt.left, wt.p, wt.e, InRight(Black, loc.t, p, e, up)), wt.right);
      }
      RotateLeftAt(parent, up, Node(Black, loc.t, p, e, wt.(right := Blacken(wt.right))));
    }

    /** One turn of the removal loop with the focus on the left; returns the next focus. */
    method RemoveTurnLeft(parent0: Coroutine, elm0: Ref, ghost at: Place) returns (parent: Ref, elm: Ref, done: bool)
      requires At(parent0, elm0, at) && DeleteInv(at) && DeleteBusy(at) && at.path.InLeft?
      modifies this`root, this`tree, Refs(tree)`color, Refs(tree)`left, Refs(tree)`right, Refs(tree)`parent
      ensures At(PathRef(DeleteStep(at).path, null), elm, DeleteStep(at)) && Refs(tree) == old(Refs(tree))
      ensures !done ==> parent == PathRef(DeleteStep(at).path, null)
      ensures done ==> elm == root && DeleteStep(at).path.Top?
    {
      hide Linked, Refs;
      parent, elm, done := parent0, elm0, false;
      ghost var loc := at;
      DeleteHasSibling(loc);
      LookUp(loc.path, loc.t);
      LookNephews(loc);
      var tmp := parent.right;
      if tmp.color == Red {
        LiftKeepsInv(loc);
        LiftFromRight(parent, loc);
        loc := LiftRedSibling(loc);
        LookUp(loc.path, loc.t);
        LookNephews(loc);
        tmp := parent.right;
      }
      if IsBlack(tmp.left) && IsBlack(tmp.right) {
        Paint(tmp, Red, Across(loc), Sibling(loc.path));
        ghost var next := PushUp(loc);
        assert Join(Across(loc), Redden(Sibling(loc.path))) == next.t;
        Look(next.path, next.t);
        elm := parent;
        parent := elm.parent;
      } else {
        if IsBlack(tmp.right) {
          TurnKeepsInv(loc);
          TurnRightNephews(parent, loc);
          loc := TurnNephews(loc);
        }
        PayOffFromRight(parent, loc);
        PayOffNode(loc);
        LookTop();
        elm, done := root, true;
      }
    }

    /** A red sibling on the left is turned above the parent. */
    method LiftFromLeft(parent: Coroutine, ghost loc: Place)
      requires At(parent, RootRef(loc.t, null), loc) && loc.path.InRight? && HasSibling(loc.path)
      modifies this`root, this`tree, Refs(tree)`color, Refs(tree)`left, Refs(tree)`right, Refs(tree)`parent
      ensures At(parent, RootRef(loc.t, null), LiftRedSibling(loc)) && Refs(tree) == old(Refs(tree))
    {
      hide Linked, Refs;
      ghost var InRight(c, wt, p, e, up) := loc.path;
      LookUp(loc.path, loc.t);
      LookNephews(loc);
      var tmp := parent.left;
      Paint(tmp, Black, Across(loc), wt);
      Paint(parent, Red, up, Node(c, wt.(color := Black), p, e, loc.t));
      RotateRightAt(parent, up, Node(Red, wt.(color := Black), p, e, loc.t));
      ghost var next := LiftRedSibling(loc);
      assert Join(next.path.up, Join(next.path, next.t)) == RedBlack.RotateRight(Node(Red, wt.(color := Black), p,
          e, loc.t));
    }

    /** The sibling on the left is turned below its red right child. */
    method TurnLeftNephews(parent: Coroutine, ghost loc: Place)
      requires At(parent, RootRef(loc.t, null), loc) && loc.path.InRight? && HasSibling(loc.path)
          && NearNephew(loc.path).Node?
      modifies this`root, this`tree, Refs(tree)`color, Refs(tree)`left, Refs(tree)`right, Refs(tree)`parent
      ensures At(parent, RootRef(loc.t, null), TurnNephews(loc)) && Refs(tree) == old(Refs(tree))
    {
      hide Linked, Refs;
      ghost var InRight(c, wt, p, e, up) := loc.path;
      ghost var wpath := Across(loc);
      LookUp(loc.path, loc.t);
      LookNephews(loc);
      var tmp := parent.left;
      var oright := tmp.right;
      if oright != null {
        Paint(oright, Black, InRight(wt.color, wt.left, wt.p, wt.e, wpath), wt.right);
      }
      Paint(tmp, Red, wpath, wt.(right := Blacken(wt.right)));
      RotateLeftAt(tmp, wpath, Node(Red, wt.left, wt.p, wt.e, Blacken(wt.right)));
      ghost var next := TurnNephews(loc);
      assert Join(next.path, next.t) == Join(wpath, Sibling(next.path));
    }

    /** The parent is turned below the sibling on the left, which takes its colour. */
    method PayOffFromLeft(parent: Coroutine, ghost loc: Place)
      requires At(parent, RootRef(loc.t, null), loc) && loc.path.InRight? && HasSibling(loc.path)
          && FarNephew(loc.path).Node?
      modifies this`root, this`tree, Refs(tree)`color, Refs(tree)`left, Refs(tree)`right, Refs(tree)`parent
      ensures Linked() && tree == PayOff(loc) && Refs(tree) == old(Refs(tree))
    {
      hide Linked, Refs;
      ghost var InRight(c, wt, p, e, up) := loc.path;
      ghost var wpath := Across(loc);
      LookUp(loc.path, loc.t);
      LookNephews(loc);
      var tmp := parent.left;
      Paint(tmp, parent.color, wpath, wt);
      wt := wt.(color := c);
      Paint(parent, Black, up, Node(c, wt, p, e, loc.t));
      if tmp.left != null {
        Paint(tmp.left, Black, InLeft(c, wt.p, wt.e, wt.right, InLeft(Black, p, e, loc.t, up)), wt.left);
      }
      RotateRightAt(parent, up, Node(Black, wt.(left := Blacken(wt.left)), p, e, loc.t));
    }

    /** One turn of the removal loop with the focus on the right; returns the next focus. */
    method RemoveTurnRight(parent0: Coroutine, elm0: Ref, ghost at: Place) returns (parent: Ref, elm: Ref, done: bool)
      requires At(parent0, elm0, at) && DeleteInv(at) && DeleteBusy(at) && at.path.InRight?
      modifies this`root, this`tree, Refs(tree)`color, Refs(tree)`left, Refs(tree)`right, Refs(tree)`parent
      ensures At(PathRef(DeleteStep(at).path, null), elm, DeleteStep(at)) && Refs(tree) == old(Refs(tree))
      ensures !done ==> parent == PathRef(DeleteStep(at).path, null)
      ensures done ==> elm == root && DeleteStep(at).path.Top?
    {
      hide Linked, Refs;
      parent, elm, done := parent0, elm0, false;
      ghost var loc := at;
      DeleteHasSibling(loc);
      LookUp(loc.path, loc.t);
      LookNephews(loc);
      var tmp := parent.left;
      if tmp.color == Red {
        LiftKeepsInv(loc);
        LiftFromLeft(parent, loc);
        loc := LiftRedSibling(loc);
        LookUp(loc.path, loc.t);
        LookNephews(loc);
        tmp := parent.left;
      }
      if IsBlack(tmp.left) && IsBlack(tmp.right) {
        Paint(tmp, Red, Across(loc), Sibling(loc.path));
        ghost var next := PushUp(loc);
        assert Join(Across(loc), Redden(Sibling(loc.path))) == next.t;
        Look(next.path, next.t);
        elm := parent;
        parent := elm.parent;
      } else {
        if IsBlack(tmp.left) {
          TurnKeepsInv(loc);
          TurnLeftNephews(parent, loc);
          loc := TurnNephews(loc);
        }
        PayOffFromLeft(parent, loc);
        PayOffNode(loc);
        LookTop();
        elm, done := root, true;
      }
    }

    /** The removal fixup: the loop, then the focus painted black. */
    method RemoveColor(parent0: Ref, elm0: Ref, ghost at: Place)
      requires At(parent0, elm0, at) && DeleteInv(at)
      modifies this`root, this`tree, Refs(tree)`color, Refs(tree)`left, Refs(tree)`right, Refs(tree)`parent
      ensures Linked() && tree == DeleteFixup(at) && Refs(tree) == old(Refs(tree))
    {
      hide Linked, Refs, Plug, DeleteStep;
      var parent, elm := parent0, elm0;
      ghost var loc := at;
      LookAt(parent, elm, loc);
      while IsBlack(elm) && elm != root
        invariant At(parent, elm, loc) && DeleteInv(loc)
        invariant DeleteFixup(loc) == DeleteFixup(at)
        invariant Refs(tree) == old(Refs(tree))
        invariant elm == root <==> loc.path.Top?
        invariant IsBlack(elm) <==> RootColor(loc.t) == Black
        decreases DeleteMeasure(loc)
      {
        DeleteHasSibling(loc);
        LookUp(loc.path, loc.t);
        LookNephews(loc);
        var done;
        if parent.left == elm {
          parent, elm, done := RemoveTurnLeft(parent, elm, loc);
        } else {
          parent, elm, done := RemoveTurnRight(parent, elm, loc);
        }
        loc := DeleteStep(loc);
        LookAt(PathRef(loc.path, null), elm, loc);
        if done {
          break;
        }
      }
      LookAt(PathRef(loc.path, null), elm, loc);
      if elm != null {
        Paint(elm, Black, loc.path, loc.t);
      }
    }

    // ---------------------------------------------------------------- hanging in

    /** A node is hung below `parent`, on the side the last comparison asked for. */
    method Hang(elm: Coroutine, parent: Ref, onLeft: bool)
      requires elm != parent
      modifies this`root, elm`parent, elm`left, elm`right, elm`color
      modifies (if parent != null then {parent} else {})`left
      modifies (if parent != null then {parent} else {})`right
      ensures elm.parent == parent && elm.left == null && elm.right == null && elm.color == Red
      ensures root == if parent == null then elm else old(root)
      ensures parent != null && onLeft ==> parent.left == elm && parent.right == old(parent.right)
      ensures parent != null && !onLeft ==> parent.right == elm && parent.left == old(parent.left)
    {
      elm.parent := parent;
      elm.left, elm.right := null, null;
      elm.color := Red;
      if parent != null {
        if onLeft {
          parent.left := elm;
        } else {
          parent.right := elm;
        }
      } else {
        root := elm;
      }
    }

    method HangStored(z: Coroutine, y: Ref, onLeft: bool, ghost m: Memory, ghost m': Memory)
      requires Stores(m) && Hung(m, m', z, z.sleepUsecs, y, onLeft, null)
      modifies this`root, z`parent, z`left, z`right, z`color, m.Keys`left, m.Keys`right
      ensures Stores(m')
      ensures root == if y == null then z else old(root)
    {
      Hang(z, y, onLeft);
      assert z.Holds(m'[z]);
      assert y in m ==> y.Holds(m'[y]);
      forall n | n in m && n != y ensures n != null && n.Holds(m'[n]) {
        assert old(n.Holds(m[n]));
      }
    }

    method HangAt(z: Coroutine, y: Ref, onLeft: bool, ghost path: Way)
      requires Linked() && tree == Plug(path, Leaf) && y == PathRef(path, null)
      requires z !in Refs(tree) && (!path.Top? ==> onLeft == path.InLeft?)
      modifies this`root, this`tree, this`repr, z`parent, z`left, z`right, z`color, Refs(tree)`left, Refs(tree)`right
      ensures Linked() && tree == Plug(path, Node(Red, Leaf, z, z.sleepUsecs, Leaf))
      ensures Refs(tree) == old(Refs(tree)) + {z}
    {
      hide Plug, Refs, Proper, Layout, Store, Stores;
      ghost var t' := Node(Red, Leaf, z as Ref, z.sleepUsecs, Leaf);
      AttachProper(path, z, z.sleepUsecs);
      AttachCells(path, z, z.sleepUsecs, null);
      PlugRoot(path, Leaf, t', null);
      if !path.Top? { LookUp(path, Leaf); }
      HangStored(z, y, onLeft, Store(tree, null), Store(Plug(path, t'), null));
      repr := repr + {z};
      tree := Plug(path, t');
    }

    // ---------------------------------------------------------------- cutting out, taking over

    /** The node `elm` leaves its place to `child`, its only child or null. */
    method CutOut(elm: Coroutine, child: Ref)
      requires child == (if elm.left != null then elm.left else elm.right)
      requires elm.parent != elm && child != elm && (child == null || child != elm.parent)
      modifies this`root
      modifies (if child != null then {child} else {})`parent
      modifies (if elm.parent != null then {elm.parent} else {})`left
      modifies (if elm.parent != null then {elm.parent} else {})`right
      ensures elm.parent == old(elm.parent) && elm.left == old(elm.left) && elm.right == old(elm.right)
      ensures child != null ==> child.parent == elm.parent
      ensures root == if elm.parent == null then child else old(root)
      ensures elm.parent != null ==>
                if old(elm.parent.left) == elm then elm.parent.left == child
                    && elm.parent.right == old(elm.parent.right)
                else elm.parent.right == child && elm.parent.left == old(elm.parent.left)
    {
      var parent := elm.parent;
      if child != null {
        child.parent := parent;
      }
      if parent != null {
        if parent.left == elm {
          parent.left := child;
        } else {
          parent.right := child;
        }
      } else {
        root := child;
      }
    }

    method CutOutStored(y: Coroutine, x: Ref, ghost up: Ref, ghost m: Memory, ghost m': Memory)
      requires Stores(m) && CutOutOf(m, m', y, x, up, null)
      modifies this`root, m.Keys`left, m.Keys`right, m.Keys`parent
      ensures Stores(m') && y.Holds(m[y])
      ensures root == if up == null then x else old(root)
    {
      CutOut(y, x);
      assert x in m ==> x.Holds(m'[x]);
      assert up in m ==> up.Holds(m'[up]);
      forall n | n in m && n != x && n != up && n != y ensures n != null && n.Holds(m'[n]) {
        assert old(n.Holds(m[n]));
      }
    }

    method CutOutAt(y: Coroutine, x: Ref, ghost path: Way, ghost t: Shape)
      requires Linked() && tree == Plug(path, t) && Cuttable(t) && t.p == y && x == RootRef(OnlyChild(t), null)
      modifies this`root, this`tree, this`repr, Refs(tree)`left, Refs(tree)`right, Refs(tree)`parent
      ensures At(PathRef(path, null), x, Loc(path, OnlyChild(t))) && Refs(tree) == old(Refs(tree)) - {y}
      ensures y.color == t.color && y.parent == PathRef(path, null) && y.sleepUsecs == t.e
    {
      hide Plug, Refs, Proper, Layout, Store, CutOutOf, Stores;
      FocusCell(path, t, null);
      SpliceProper(path, t);
      SpliceCells(path, t, null);
      PlugRoot(path, t, OnlyChild(t), null);
      ghost var m, m' := Store(tree, null), Store(Plug(path, OnlyChild(t)), null);
      CutOutStored(y, x, PathRef(path, null), m, m');
      repr := repr - {y};
      tree := Plug(path, OnlyChild(t));
    }

    /** The node `elm`, which is out of the tree, takes over the links and the colour of `out`. */
    method TakeOver(elm: Coroutine, out: Coroutine)
      requires elm != out && out.left != out && out.right != out && out.parent != out
      requires out.left != elm && out.right != elm && out.parent != elm
      requires out.left != null && (out.right == null || out.right != out.left)
      requires out.parent == null || (out.parent != out.left && out.parent != out.right)
      modifies this`root, elm`left, elm`right, elm`parent, elm`color, out.left`parent
      modifies (if out.right != null then {out.right} else {})`parent
      modifies (if out.parent != null then {out.parent} else {})`left
      modifies (if out.parent != null then {out.parent} else {})`right
      ensures elm.left == old(out.left) && elm.right == old(out.right) && elm.parent == old(out.parent)
      ensures elm.color == out.color && elm.left.parent == elm && (elm.right != null ==> elm.right.parent == elm)
      ensures out.left == old(out.left) && out.right == old(out.right) && out.parent == old(out.parent)
      ensures root == if elm.parent == null then elm else old(root)
      ensures elm.parent != null ==>
                if old(out.parent.left) == out then elm.parent.left == elm && elm.parent.right == old(out.parent.right)
                else elm.parent.right == elm && elm.parent.left == old(out.parent.left)
    {
      elm.left, elm.right, elm.parent, elm.color := out.left, out.right, out.parent, out.color;
      if out.parent != null {
        if out.parent.left == out {
          out.parent.left := elm;
        } else {
          out.parent.right := elm;
        }
      } else {
        root := elm;
      }
      out.left.parent := elm;
      if out.right != null {
        out.right.parent := elm;
      }
    }

    method TakeOverStored(q: Coroutine, x: Coroutine, ghost m: Memory, ghost m': Memory)
      requires Stores(m) && TakenOver(m, m', x, q, q.sleepUsecs, null) && x.left != null
      modifies this`root, q`left, q`right, q`parent, q`color, m.Keys`left, m.Keys`right, m.Keys`parent
      ensures Stores(m')
      ensures root == if m[x].parent == null then q else old(root)
    {
      ghost var l, r, up := m[x].left, m[x].right, m[x].parent;
      TakeOver(q, x);
      assert q.Holds(m'[q]) && l.Holds(m'[l]);
      assert r in m ==> r.Holds(m'[r]);
      assert up in m ==> up.Holds(m'[up]);
      forall n | n in m && n != x && n != l && n != r && n != up ensures n != null && n.Holds(m'[n]) {
        assert old(n.Holds(m[n]));
      }
    }

    method TakeOverAt(q: Coroutine, x: Coroutine, ghost path: Way, ghost t: Shape)
      requires Linked() && tree == Plug(path, t) && t.Node? && t.left.Node? && t.p == x && q !in Refs(tree)
      modifies this`root, this`tree, this`repr, q`left, q`right, q`parent, q`color
      modifies Refs(tree)`left, Refs(tree)`right, Refs(tree)`parent
      ensures Linked() && tree == Plug(path, t.(p := q, e := q.sleepUsecs))
      ensures Refs(tree) == old(Refs(tree)) - {x} + {q}
    {
      hide Plug, Refs, Proper, Layout, Store, TakenOver, Stores;
      LookChildren(path, t);
      FocusCell(path, t, null);
      SubstituteProper(path, t, q, q.sleepUsecs);
      SubstituteCells(path, t, q, q.sleepUsecs, null);
      ghost var t' := t.(p := q, e := q.sleepUsecs);
      PlugRoot(path, t, t', null);
      TakeOverStored(q, x, Store(tree, null), Store(Plug(path, t'), null));
      repr := repr - {x} + {q};
      tree := Plug(path, t');
    }

    // ---------------------------------------------------------------- the operations

    /** The invariant between calls. */
    ghost predicate Valid()
      reads this, Refs(tree)
    {
      Linked() && Good(tree)
    }

    /** The sleepers with their keys, and the keys. */
    ghost function Sleepers(): set<(Ref, nat)>
      reads this
    {
      SleepOrder.Sleepers(tree)
    }

    ghost function Keys(): set<nat>
      reads this
    {
      SleepOrder.Keys(tree)
    }

    /** A node object of the tree is a sleeper, under the key it holds. */
    lemma InTree(co: Coroutine)
      requires Linked()
      ensures co in Refs(tree) ==> (co, co.sleepUsecs) in Sleepers() && co.sleepUsecs in Keys()
    {
      if co in Refs(tree) {
        CellItem(tree, null, null, co);
        KeyTaken(tree, (co, co.sleepUsecs));
      }
    }

    /** And a sleeper is a node object of the tree that holds its key. */
    lemma Asleep(x: (Ref, nat))
      requires Linked() && x in Sleepers()
      ensures x.0 in Refs(tree) && x.0.sleepUsecs == x.1
    {
      ItemCell(tree, null, null, x);
    }

    /** `RB_FIND`: the sleeper with key `k`, or null. */
    method Find(k: nat) returns (tmp: Ref)
      requires Valid()
      ensures Valid() && tmp == RootRef(SleepOrder.Find(tree, k).t, null)
      ensures tmp != null <==> k in Keys()
      ensures tmp != null ==> (tmp, k) in Sleepers() && tmp.sleepUsecs == k
    {
      hide Linked, RedBlack.Valid, Ascending, Refs, Elements, KeysOf;
      ghost var loc := Loc(Top, tree);
      LookTop();
      tmp := root;
      while tmp != null
        invariant Linked() && tree == Whole(loc) && tmp == RootRef(loc.t, null)
        invariant Seek(loc.path, loc.t, k) == SleepOrder.Find(tree, k)
        invariant tmp == null <==> loc.t.Leaf?
        decreases loc.t
      {
        Look(loc.path, loc.t);
        LookChildren(loc.path, loc.t);
        if k < tmp.sleepUsecs {
          tmp := tmp.left;
          loc := Loc(InLeft(loc.t.color, loc.t.p, loc.t.e, loc.t.right, loc.path), loc.t.left);
        } else if k > tmp.sleepUsecs {
          tmp := tmp.right;
          loc := Loc(InRight(loc.t.color, loc.t.left, loc.t.p, loc.t.e, loc.path), loc.t.right);
        } else {
          break;
        }
      }
      if loc.t.Node? { Look(loc.path, loc.t); }
      FindAgrees(tree, k);
    }

    /** Where a walk to the left or to the right ends, having passed `parent` last. */
    ghost function Outcome(parent: Ref, loc: Place, toLeft: bool): Ref {
      if loc.t.Leaf? then parent
      else if toLeft then Leftmost(loc.path, loc.t).t.p
      else Rightmost(loc.path, loc.t).t.p
    }

    /** `RB_MINMAX`: the sleeper with the least or the greatest key, or null if nobody sleeps. */
    method MinMax(val: int) returns (parent: Ref)
      requires Valid()
      ensures Valid()
      ensures parent == null <==> Sleepers() == {}
      ensures parent != null ==> parent in Refs(tree) && (parent, parent.sleepUsecs) in Sleepers()
      ensures parent != null && val < 0 ==> forall k :: k in Keys() ==> parent.sleepUsecs <= k
      ensures parent != null && val >= 0 ==> forall k :: k in Keys() ==> k <= parent.sleepUsecs
    {
      hide Linked, RedBlack.Valid, Ascending, Refs, Elements, KeysOf;
      parent := null;
      var tmp := root;
      ghost var loc := Loc(Top, tree);
      LookTop();
      while tmp != null
        invariant Linked() && tree == Whole(loc) && tmp == RootRef(loc.t, null) && (tmp == null <==> loc.t.Leaf?)
        invariant Outcome(parent, loc, val < 0) == Outcome(null, Loc(Top, tree), val < 0)
        decreases loc.t
      {
        Look(loc.path, loc.t);
        LookChildren(loc.path, loc.t);
        parent := tmp;
        if val < 0 {
          tmp := tmp.left;
          loc := Loc(InLeft(loc.t.color, loc.t.p, loc.t.e, loc.t.right, loc.path), loc.t.left);
        } else {
          tmp := tmp.right;
          loc := Loc(InRight(loc.t.color, loc.t.left, loc.t.p, loc.t.e, loc.path), loc.t.right);
        }
      }
      EmptyMeansNone(tree);
      if tree.Node? {
        ghost var end := if val < 0 then Leftmost(Top, tree) else Rightmost(Top, tree);
        Look(end.path, end.t);
        EndsAreExtremes(tree);
      }
    }

    /** `RB_INSERT`: adds `elm`, or returns the sleeper that has its key already. */
    method Insert(elm: Coroutine) returns (tmp: Ref)
      requires Valid() && elm !in Refs(tree)
      modifies this`root, this`tree, this`repr, elm`color, elm`left, elm`right, elm`parent
      modifies Refs(tree)`color, Refs(tree)`left, Refs(tree)`right, Refs(tree)`parent
      ensures Valid() && tree == Put(old(tree), elm, elm.sleepUsecs)
      ensures tmp != null <==> elm.sleepUsecs in old(Keys())
      ensures tmp != null ==> tree == old(tree) && (tmp, elm.sleepUsecs) in Sleepers()
      ensures tmp == null ==> Sleepers() == old(Sleepers()) + {(elm, elm.sleepUsecs)}
      ensures tmp == null ==> Keys() == old(Keys()) + {elm.sleepUsecs} && Refs(tree) == old(Refs(tree)) + {elm}
    {
      hide Linked, RedBlack.Valid, Ascending, Refs, Elements, KeysOf, InsertFixup;
      var parent: Ref := null;
      var onLeft := false;
      tmp := root;
      ghost var k, loc := elm.sleepUsecs, Loc(Top, tree);
      PutRefines(tree, elm, k);
      FindAgrees(tree, k);
      LookTop();
      while tmp != null
        invariant Linked() && tree == old(tree) == Whole(loc)
        invariant tmp == RootRef(loc.t, null) && (tmp == null <==> loc.t.Leaf?) && parent == PathRef(loc.path, null)
        invariant Seek(loc.path, loc.t, k) == SleepOrder.Find(tree, k)
        invariant !loc.path.Top? ==> onLeft == loc.path.InLeft?
        decreases loc.t
      {
        Look(loc.path, loc.t);
        LookChildren(loc.path, loc.t);
        parent := tmp;
        if elm.sleepUsecs < parent.sleepUsecs {
          tmp, onLeft := tmp.left, true;
          loc := Loc(InLeft(loc.t.color, loc.t.p, loc.t.e, loc.t.right, loc.path), loc.t.left);
        } else if elm.sleepUsecs > parent.sleepUsecs {
          tmp, onLeft := tmp.right, false;
          loc := Loc(InRight(loc.t.color, loc.t.left, loc.t.p, loc.t.e, loc.path), loc.t.right);
        } else {
          return;
        }
      }
      AttachInv<Ref, nat>(loc.path, elm, k);
      HangAt(elm, parent, onLeft, loc.path);
      InsertColor(elm, Loc(loc.path, Node(Red, Leaf, elm, k, Leaf)));
    }

    /** The node after `old` in key order, when it has a right child. */
    method Next(out: Coroutine, ghost at: Place) returns (elm: Coroutine)
      requires Linked() && tree == Whole(at) && at.t.Node? && at.t.p == out && at.t.right.Node? && out.right != null
      ensures Linked()
      ensures elm == After(at).t.p
    {
      hide Linked, Refs;
      ghost var first := Loc(InRight(at.t.color, at.t.left, at.t.p, at.t.e, at.path), at.t.right);
      ghost var loc := first;
      LookChildren(at.path, at.t);
      elm := out.right;
      Look(loc.path, loc.t);
      LookChildren(loc.path, loc.t);
      while elm.left != null
        invariant Linked() && tree == Whole(loc) && loc.t.Node? && elm == loc.t.p
        invariant elm.left == RootRef(loc.t.left, null) && (elm.left == null <==> loc.t.left.Leaf?)
        invariant Leftmost(first.path, first.t) == Leftmost(loc.path, loc.t)
        decreases loc.t
      {
        elm := elm.left;
        loc := Loc(InLeft(loc.t.color, loc.t.p, loc.t.e, loc.t.right, loc.path), loc.t.left);
        Look(loc.path, loc.t);
        LookChildren(loc.path, loc.t);
      }
    }

    /** The parent of a node further down to the right is not the node itself. */
    lemma ParentBelow(at: Place, inner: Place)
      requires Linked() && tree == Whole(at) && at.t.Node? && Whole(inner) == at.t.right && !inner.path.Top?
      ensures inner.path.p != at.t.p
    {
      PlugRefs(at.path, at.t);
      PlugRefs(inner.path, inner.t);
    }

    /** The successor's place, and the node in focus once its successor is cut out. */
    ghost function After(at: Place): Place
      requires at.t.Node? && at.t.right.Node?
    {
      Leftmost(InRight(at.t.color, at.t.left, at.t.p, at.t.e, at.path), at.t.right)
    }

    ghost function Bereft(at: Place): Shape
      requires at.t.Node? && at.t.right.Node?
    {
      var inner := Leftmost<Ref, nat>(Top, at.t.right);
      at.t.(right := Plug(inner.path, OnlyChild(inner.t)))
    }

    lemma SplicePlaces(at: Place)
      requires Linked() && tree == Whole(at) && at.t.Node? && at.t.left.Node? && at.t.right.Node?
      ensures var y, s := After(at), Spliced(at);
              && tree == Whole(y) && y.t == s.t && y.t.left.Leaf?
              && Plug(y.path, OnlyChild(y.t)) == Plug(at.path, Bereft(at))
              && Plug(s.path, OnlyChild(s.t)) == Plug(at.path, Bereft(at).(p := y.t.p, e := y.t.e))
              && PathRef(s.path, null) == if PathRef(y.path, null) == at.t.p then y.t.p else PathRef(y.path, null)
    {
      var inner := Leftmost<Ref, nat>(Top, at.t.right);
      assert Whole(inner) == at.t.right;
      if !inner.path.Top? { ParentBelow(at, inner); }
      hide Linked, Refs, Plug, Leftmost;
      SplicedAside(at, OnlyChild(inner.t));
      AppendRef(inner.path, InRight(at.t.color, at.t.left, at.t.p, at.t.e, at.path), null);
      AppendRef(inner.path, InRight(at.t.color, at.t.left, inner.t.p, inner.t.e, at.path), null);
    }

    /** The successor of `out` is cut out and takes its place.  Returns what the fixup needs: the
        place where a node is missing now, and the colour that is missing there. */
    method Splice(out: Coroutine, ghost at: Place) returns (parent: Ref, child: Ref, color: Color)
      requires Linked() && tree == Whole(at) && at.t.Node? && at.t.p == out && at.t.left.Node? && at.t.right.Node?
      requires out.right != null
      modifies this`root, this`tree, this`repr, Refs(tree)`color, Refs(tree)`left, Refs(tree)`right, Refs(tree)`parent
      ensures At(parent, child, Loc(Spliced(at).path, OnlyChild(Spliced(at).t))) && color == Spliced(at).t.color
      ensures Refs(tree) == old(Refs(tree)) - {out}
    {
      SplicePlaces(at);
      hide Linked, Refs, Plug, Spliced, After;
      ghost var y := After(at);
      var elm := Next(out, at);
      Look(y.path, y.t);
      LookChildren(y.path, y.t);
      child, parent, color := elm.right, elm.parent, elm.color;
      CutOutAt(elm, child, y.path, y.t);
      if elm.parent == out {
        parent := elm;
      }
      Look(at.path, Bereft(at));
      OutAndIn(old(Refs(tree)), elm, out);
      TakeOverAt(elm, out, at.path, Bereft(at));
    }

    /** Removal of the node in focus. */
    method RemoveAt(elm: Coroutine, ghost at: Place)
      requires Linked() && RedBlack.Valid(tree) && tree == Whole(at) && at.t.Node? && at.t.p == elm
      modifies this`root, this`tree, this`repr, Refs(tree)`color, Refs(tree)`left, Refs(tree)`right, Refs(tree)`parent
      ensures Linked() && tree == Extract(at) && Refs(tree) == old(Refs(tree)) - {elm}
    {
      hide Linked, Refs, Plug, RedBlack.Valid, Leftmost, DeleteFixup, DeleteInv;
      SplicedValid(at);
      CutKeeps(Spliced(at).path, Spliced(at).t);
      Look(at.path, at.t);
      LookChildren(at.path, at.t);
      var parent, child, color;
      if elm.left != null && elm.right != null {
        parent, child, color := Splice(elm, at);
      } else {
        child := if elm.left == null then elm.right else elm.left;
        parent, color := elm.parent, elm.color;
        CutOutAt(elm, child, at.path, at.t);
      }
      if color == Black {
        RemoveColor(parent, child, Loc(Spliced(at).path, OnlyChild(Spliced(at).t)));
      }
    }

    /** `RB_REMOVE`: takes `elm` out of the tree. */
    method Remove(elm: Coroutine)
      requires Valid() && (elm, elm.sleepUsecs) in Sleepers()
      modifies this`root, this`tree, this`repr, Refs(tree)`color, Refs(tree)`left, Refs(tree)`right, Refs(tree)`parent
      ensures Valid() && Refs(tree) == old(Refs(tree)) - {elm}
      ensures Sleepers() == old(Sleepers()) - {(elm, elm.sleepUsecs)} && Keys() == old(Keys()) - {elm.sleepUsecs}
    {
      hide Linked, Refs, RedBlack.Valid, Ascending, Elements, KeysOf, Extract;
      ghost var k := elm.sleepUsecs;
      ghost var at := SleepOrder.Find(tree, k);
      FindAgrees(tree, k);
      KeyTaken(tree, (elm, k));
      OneOwner(tree, (elm, k), (at.t.p, k));
      ExtractRefines(at);
      RemoveAt(elm, at);
    }
  }
}
