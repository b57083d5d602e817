/** The red-black engine of the key-value store: node objects with parent links and a
    sentinel, updated in place. */
module KvRbTree {
  import opened RedBlack
  import opened Deletion
  import opened TreeHeight
  import opened TreeLayout
  import opened CStrings
  import opened Options
  import opened KvSearch

  class RbNode {
    var color: Color
    var left: RbNode?
    var right: RbNode?
    var parent: RbNode?
    var key: CString
    var value: CString

    constructor (key: CString, value: CString)
      ensures this.key == key && this.value == value
    {
      this.key := key;
      this.value := value;
    }

    /** This object stores the given cell. */
    ghost predicate Holds(c: Cell<RbNode, Entry>)
      reads this
    {
      && color == c.color && left == c.left && right == c.right && parent == c.parent
      && key == c.e.key && value == c.e.value
    }
  }

  type Shape = Tree<RbNode, Entry>
  type Way = Path<RbNode, Entry>
  type Place = Loc<RbNode, Entry>
  type Memory = map<RbNode, Cell<RbNode, Entry>>

  class RbTree {
    var root: RbNode
    const nil: RbNode
    var count: int

    /** The tree the node objects store. */
    ghost var tree: Shape

    /** The node objects of the tree. */
    ghost var repr: set<RbNode>

    ghost predicate Stores(m: Memory)
      reads m.Keys
    {
      forall n :: n in m ==> n.Holds(m[n])
    }

    /** The objects, followed from the root, are exactly `tree`. */
    ghost predicate Linked()
      reads this`root, this`tree, this`repr, nil, Refs(tree)
    {
      && nil.color == Black && nil !in Refs(tree) && repr == Refs(tree)
      && Proper(tree) && root == RootRef(tree, nil)
      && Stores(Store(tree, nil))
    }

    constructor ()
      ensures Valid() && tree == Leaf && Contents(tree) == map[] && count == 0
      ensures fresh(nil)
    {
      nil := new RbNode([], []);
      root := nil;
      count := 0;
      tree := Leaf;
      repr := {};
      new;
      nil.color := Black;
    }

    // ---------------------------------------------------------------- reading the links

    /** What the object in focus holds. */
    lemma Look(path: Way, t: Shape)
      requires Linked() && tree == Plug(path, t) && t.Node?
      ensures t.p in Refs(tree) && t.p != nil && nil !in Refs(tree) && nil.color == Black
      ensures t.p.Holds(Cell(t.color, RootRef(t.left, nil), RootRef(t.right, nil), PathRef(path, nil), t.e))
    {
      hide Plug, Refs, Proper, Layout;
      FocusCell(path, t, nil);
    }

    /** What the object above the focus holds, and that the two are told apart. */
    lemma LookUp(path: Way, t: Shape)
      requires Linked() && tree == Plug(path, t) && !path.Top?
      ensures path.p in Refs(tree) && path.p != nil && path.p.color == path.color
      ensures nil !in Refs(tree) && nil.color == Black
      ensures path.p.parent == PathRef(path.up, nil) && path.p.key == path.e.key
      ensures path.InLeft? ==> path.p.left == RootRef(t, nil) && path.p.right == RootRef(path.right, nil)
      ensures path.InRight? ==> path.p.left == RootRef(path.left, nil) && path.p.right == RootRef(t, nil)
      ensures t.Node? ==> path.p != t.p && RootRef(Sibling(path), nil) != t.p
    {
      hide Plug, Refs, Proper, Layout;
      ParentCell(path, t, nil);
    }

    /** The sentinel stands for the missing children, and only for them. */
    lemma LookChildren(path: Way, t: Shape)
      requires Linked() && tree == Plug(path, t) && t.Node?
      ensures t.p.left == RootRef(t.left, nil) && t.p.right == RootRef(t.right, nil)
      ensures t.p.left == nil <==> t.left.Leaf?
      ensures t.p.right == nil <==> t.right.Leaf?
    {
      hide Linked, Refs;
      Look(path, t);
      if t.left.Node? { Look(InLeft(t.color, t.p, t.e, t.right, path), t.left); }
      if t.right.Node? { Look(InRight(t.color, t.left, t.p, t.e, path), t.right); }
    }

    lemma LookTop()
      requires Linked()
      ensures root == RootRef(tree, nil) && tree == Plug(Top, tree)
      ensures tree.Node? ==> root in Refs(tree)
    {
    }

    // ---------------------------------------------------------------- single updates

    /** The assignment `n.color := c`, at the node in focus. */
    method Paint(n: RbNode, c: Color, ghost path: Way, ghost t: Shape)
      requires Linked() && tree == Plug(path, t) && t.Node? && t.p == n
      modifies n`color, this`tree
      ensures Linked() && tree == Plug(path, t.(color := c)) && Refs(tree) == old(Refs(tree))
    {
      hide Plug, Refs, Proper, Layout, Store;
      PaintCells(path, t, c, t.e, nil);
      FocusCell(path, t, nil);
      PlugRoot(path, t, t.(color := c), nil);
      ghost var m, m' := Store(tree, nil), Store(Plug(path, t.(color := c)), nil);
      assert Stores(m);
      n.color := c;
      assert n.Holds(m'[n]);
      forall k | k in m' && k != n ensures k.Holds(m'[k]) {
        assert k in m && m'[k] == m[k];
      }
      tree := Plug(path, t.(color := c));
    }

    /** The assignment `nil.color := Black`. */
    method PaintNil()
      requires Linked()
      modifies nil`color
      ensures Linked()
    {
      hide Refs, Proper, Layout;
      nil.color := Black;
    }

    /** A left rotation on the links of the four objects around `x`. */
    method LeftRotate(x: RbNode)
      requires x.right != null && x.right != nil && x.right.left != null && x.parent != null
      requires x.right != x && x.right.left !in {x, x.right} && x.parent !in {x, x.right}
      requires x.right.left == nil || x.right.left != x.parent
      modifies this`root, x`right, x`parent, x.right`left, x.right`parent
      modifies (if x.right.left != nil then {x.right.left} else {})`parent
      modifies (if x.parent != nil then {x.parent} else {})`left
      modifies (if x.parent != nil then {x.parent} else {})`right
      ensures x.right == old(x.right.left) && x.parent == old(x.right)
      ensures old(x.right).left == x && old(x.right).parent == old(x.parent)
      ensures old(x.right.left) != nil ==> old(x.right.left).parent == x
      ensures old(x.right.left) == nil ==> nil.parent == old(nil.parent)
      ensures root == if old(x.parent) == nil then old(x.right) else old(root)
      ensures var up, inLeft := old(x.parent), old(x.parent.left) == x;
              && up.left == (if up != nil && inLeft then old(x.right) else old(x.parent.left))
              && up.right == (if up != nil && !inLeft then old(x.right) else old(x.parent.right))
    {
      var y := x.right;

      x.right := y.left;
      if y.left != nil {
        y.left.parent := x;
      }

      y.parent := x.parent;
      if x.parent == nil {
        root := y;
      } else if x == x.parent.left {
        x.parent.left := y;
      } else {
        x.parent.right := y;
      }

      y.left := x;
      x.parent := y;
    }

    /** A left rotation at the node in focus. */
    method LeftRotateAt(x: RbNode, ghost path: Way, ghost t: Shape)
      requires Linked() && tree == Plug(path, t) && t.Node? && t.p == x && t.right.Node?
      modifies this`root, this`tree, Refs(tree)`left, Refs(tree)`right, Refs(tree)`parent
      ensures Linked() && tree == Plug(path, RotateLeft(t)) && Refs(tree) == old(Refs(tree))
    {
      hide TurnedLeft, Stores, Plug, Refs, Proper, Layout, Store;
      RotateLeftCells(path, t, nil);
      PlugRoot(path, t, RotateLeft(t), nil);
      ghost var m, m' := Store(tree, nil), Store(Plug(path, RotateLeft(t)), nil);
      LeftRotateStored(x, t.right.p, RootRef(t.right.left, nil), PathRef(path, nil), m, m');
      tree := Plug(path, RotateLeft(t));
    }

    /** The same rotation, told as a change of memory. */
    method LeftRotateStored(x: RbNode, ghost y: RbNode, ghost b: RbNode, ghost up: RbNode, ghost m: Memory,
        ghost m': Memory)
      requires Stores(m) && TurnedLeft(m, m', x, y, b, up, nil)
      modifies this`root, m.Keys`left, m.Keys`right, m.Keys`parent
      ensures Stores(m')
      ensures root == if up == nil then y else old(root)
    {
      LeftRotate(x);
      assert x.Holds(m'[x]) && y.Holds(m'[y]);
      assert b in m ==> b.Holds(m'[b]);
      assert up in m ==> up.Holds(m'[up]);
      forall n | n in m && n != x && n != y && n != b && n != up ensures n.Holds(m'[n]) {
        assert old(n.Holds(m[n]));
      }
    }

    /** A right rotation on the links of the four objects around `x`. */
    method RightRotate(x: RbNode)
      requires x.left != null && x.left != nil && x.left.right != null && x.parent != null
      requires x.left != x && x.left.right !in {x, x.left} && x.parent !in {x, x.left}
      requires x.left.right == nil || x.left.right != x.parent
      modifies this`root, x`left, x`parent, x.left`right, x.left`parent
      modifies (if x.left.right != nil then {x.left.right} else {})`parent
      modifies (if x.parent != nil then {x.parent} else {})`right
      modifies (if x.parent != nil then {x.parent} else {})`left
      ensures x.left == old(x.left.right) && x.parent == old(x.left)
      ensures old(x.left).right == x && old(x.left).parent == old(x.parent)
      ensures old(x.left.right) != nil ==> old(x.left.right).parent == x
      ensures old(x.left.right) == nil ==> nil.parent == old(nil.parent)
      ensures root == if old(x.parent) == nil then old(x.left) else old(root)
      ensures var up, inRight := old(x.parent), old(x.parent.right) == x;
              && up.right == (if up != nil && inRight then old(x.left) else old(x.parent.right))
              && up.left == (if up != nil && !inRight then old(x.left) else old(x.parent.left))
    {
      var y := x.left;

      x.left := y.right;
      if y.right != nil {
        y.right.parent := x;
      }

      y.parent := x.parent;
      if x.parent == nil {
        root := y;
      } else if x == x.parent.right {
        x.parent.right := y;
      } else {
        x.parent.left := y;
      }

      y.right := x;
      x.parent := y;
    }

    /** A right rotation at the node in focus. */
    method RightRotateAt(x: RbNode, ghost path: Way, ghost t: Shape)
      requires Linked() && tree == Plug(path, t) && t.Node? && t.p == x && t.left.Node?
      modifies this`root, this`tree, Refs(tree)`right, Refs(tree)`left, Refs(tree)`parent
      ensures Linked() && tree == Plug(path, RotateRight(t)) && Refs(tree) == old(Refs(tree))
    {
      hide TurnedRight, Stores, Plug, Refs, Proper, Layout, Store;
      RotateRightCells(path, t, nil);
      PlugRoot(path, t, RotateRight(t), nil);
      ghost var m, m' := Store(tree, nil), Store(Plug(path, RotateRight(t)), nil);
      RightRotateStored(x, t.left.p, RootRef(t.left.right, nil), PathRef(path, nil), m, m');
      tree := Plug(path, RotateRight(t));
    }

    /** The same rotation, told as a change of memory. */
    method RightRotateStored(x: RbNode, ghost y: RbNode, ghost b: RbNode, ghost up: RbNode, ghost m: Memory,
        ghost m': Memory)
      requires Stores(m) && TurnedRight(m, m', x, y, b, up, nil)
      modifies this`root, m.Keys`right, m.Keys`left, m.Keys`parent
      ensures Stores(m')
      ensures root == if up == nil then y else old(root)
    {
      RightRotate(x);
      assert x.Holds(m'[x]) && y.Holds(m'[y]);
      assert b in m ==> b.Holds(m'[b]);
      assert up in m ==> up.Holds(m'[up]);
      forall n | n in m && n != x && n != y && n != b && n != up ensures n.Holds(m'[n]) {
        assert old(n.Holds(m[n]));
      }
    }

    // ---------------------------------------------------------------- insertion

    /** One turn of the insertion loop below a left parent; returns the next focus. */
    method InsertTurnLeft(z0: RbNode, ghost loc: Place) returns (z: RbNode)
      requires Linked() && tree == Whole(loc) && loc.t.Node? && loc.t.p == z0
      requires InsertBusy(loc) && loc.path.up.InLeft?
      modifies this`root, this`tree, Refs(tree)`color, Refs(tree)`left, Refs(tree)`right, Refs(tree)`parent
      ensures Linked() && tree == Whole(InsertStep(loc)) && Refs(tree) == old(Refs(tree))
      ensures InsertStep(loc).t.Node? && z == InsertStep(loc).t.p
    {
      hide Linked, Refs;
      z := z0;
      ghost var path, t := loc.path, loc.t;
      ghost var up, g, eg, u, gup := path.up, path.up.p, path.up.e, path.up.right, path.up.up;
      ghost var parent := Join(path, t);
      Look(path, t);
      LookUp(path, t);
      LookUp(up, parent);
      var y := z.parent.parent.right;
      if u.Node? { Look(InRight(up.color, parent, g, eg, gup), u); }
      if y.color == Red {
        Paint(z.parent, Black, up, parent);
        Paint(y, Black, InRight(up.color, parent.(color := Black), g, eg, gup), u);
        Paint(z.parent.parent, Red, gup, Node(up.color, parent.(color := Black), g, eg, Blacken(u)));
        z := z.parent.parent;
      } else {
        if z == z.parent.right {
          z := z.parent;
          LeftRotateAt(z, up, parent);
          parent := RotateLeft(parent);
          Look(InLeft(parent.color, parent.p, parent.e, parent.right, up), parent.left);
          LookUp(up, parent);
        }
        Paint(z.parent, Black, up, parent);
        parent := parent.(color := Black);
        Look(up, parent);
        Paint(z.parent.parent, Red, gup, Node(up.color, parent, g, eg, u));
        RightRotateAt(z.parent.parent, gup, Node(Red, parent, g, eg, u));
      }
    }

    /** One turn of the insertion loop below a right parent; returns the next focus. */
    method InsertTurnRight(z0: RbNode, ghost loc: Place) returns (z: RbNode)
      requires Linked() && tree == Whole(loc) && loc.t.Node? && loc.t.p == z0
      requires InsertBusy(loc) && loc.path.up.InRight?
      modifies this`root, this`tree, Refs(tree)`color, Refs(tree)`right, Refs(tree)`left, Refs(tree)`parent
      ensures Linked() && tree == Whole(InsertStep(loc)) && Refs(tree) == old(Refs(tree))
      ensures InsertStep(loc).t.Node? && z == InsertStep(loc).t.p
    {
      hide Linked, Refs;
      z := z0;
      ghost var path, t := loc.path, loc.t;
      ghost var up, g, eg, u, gup := path.up, path.up.p, path.up.e, path.up.left, path.up.up;
      ghost var parent := Join(path, t);
      Look(path, t);
      LookUp(path, t);
      LookUp(up, parent);
      var y := z.parent.parent.left;
      if u.Node? { Look(InLeft(up.color, g, eg, parent, gup), u); }
      if y.color == Red {
        Paint(z.parent, Black, up, parent);
        Paint(y, Black, InLeft(up.color, g, eg, parent.(color := Black), gup), u);
        Paint(z.parent.parent, Red, gup, Node(up.color, Blacken(u), g, eg, parent.(color := Black)));
        z := z.parent.parent;
      } else {
        if z == z.parent.left {
          z := z.parent;
          RightRotateAt(z, up, parent);
          parent := RotateRight(parent);
          Look(InRight(parent.color, parent.left, parent.p, parent.e, up), parent.right);
          LookUp(up, parent);
        }
        Paint(z.parent, Black, up, parent);
        parent := parent.(color := Black);
        Look(up, parent);
        Paint(z.parent.parent, Red, gup, Node(up.color, u, g, eg, parent));
        LeftRotateAt(z.parent.parent, gup, Node(Red, u, g, eg, parent));
      }
    }

    /** The insertion fixup: the loop, then the root painted black. */
    method InsertFixup(z0: RbNode, ghost at: Place)
      requires Linked() && tree == Whole(at) && InsertInv(at) && at.t.p == z0
      modifies this`root, this`tree, Refs(tree)`color, Refs(tree)`left, Refs(tree)`right, Refs(tree)`parent
      ensures Linked() && tree == RedBlack.InsertFixup(at) && Refs(tree) == old(Refs(tree))
    {
      hide Linked, Refs, InsertStep;
      var z := z0;
      ghost var loc := at;
      Look(loc.path, loc.t);
      if !loc.path.Top? { LookUp(loc.path, loc.t); }
      while z.parent.color == Red
        invariant Linked() && tree == Whole(loc) && InsertInv(loc) && loc.t.p == z
        invariant RedBlack.InsertFixup(loc) == RedBlack.InsertFixup(at)
        invariant Refs(tree) == old(Refs(tree))
        invariant z.parent == PathRef(loc.path, nil) && z.parent.color == PathColor(loc.path)
        decreases Depth(loc.path)
      {
        InsertStepKeepsInv(loc);
        LookUp(loc.path, loc.t);
        LookUp(loc.path.up, Join(loc.path, loc.t));
        if z.parent == z.parent.parent.left {
          z := InsertTurnLeft(z, loc);
        } else {
          z := InsertTurnRight(z, loc);
        }
        loc := InsertStep(loc);
        Look(loc.path, loc.t);
        if !loc.path.Top? { LookUp(loc.path, loc.t); }
      }
      PlugNode(loc.path, loc.t);
      LookTop();
      Paint(root, Black, Top, tree);
    }

    // ---------------------------------------------------------------- deletion fixup

    /** The focus of the deletion loop: a node, or the sentinel with its parent link set. */
    ghost predicate At(x: RbNode, loc: Place)
      reads this`root, this`tree, this`repr, nil, x, Refs(tree)
    {
      && Linked() && tree == Whole(loc) && x == RootRef(loc.t, nil)
      && x.parent == PathRef(loc.path, nil)
    }

    lemma LookAt(x: RbNode, loc: Place)
      requires At(x, loc)
      ensures x.color == RootColor(loc.t)
      ensures x == root <==> loc.path.Top?
      ensures x == nil <==> loc.t.Leaf?
      ensures x != nil ==> x in Refs(tree)
    {
      hide Refs, Plug, Proper, Layout;
      RootElsewhere(loc.path, loc.t, nil);
      if loc.t.Node? { Look(loc.path, loc.t); }
    }

    /** The colours of the sibling's children, the sentinel counting as black. */
    lemma LookNephews(loc: Place)
      requires Linked() && tree == Whole(loc) && HasSibling(loc.path)
      ensures var w := Sibling(loc.path);
              && w.p in Refs(tree) && w.p != nil && nil !in Refs(tree) && nil.color == Black
              && w.p.color == w.color && w.p.left == RootRef(w.left, nil) && w.p.right == RootRef(w.right, nil)
              && (w.left.Node? ==> w.left.p in Refs(tree))
              && (w.right.Node? ==> w.right.p in Refs(tree))
              && w.p.left.color == RootColor(w.left) && w.p.right.color == RootColor(w.right)
    {
      hide Linked, Refs;
      var w := Sibling(loc.path);
      var wpath := Across(loc);
      Look(wpath, w);
      if w.left.Node? { Look(InLeft(w.color, w.p, w.e, w.right, wpath), w.left); }
      if w.right.Node? { Look(InRight(w.color, w.left, w.p, w.e, wpath), w.right); }
    }

    /** A red sibling on the right is turned above the parent. */
    method LiftFromRight(x: RbNode, ghost loc: Place)
      requires At(x, loc) && loc.path.InLeft? && HasSibling(loc.path)
      modifies this`root, this`tree, Refs(tree)`color, Refs(tree)`left, Refs(tree)`right, Refs(tree)`parent
      ensures At(x, LiftRedSibling(loc)) && Refs(tree) == old(Refs(tree))
    {
      hide Linked, Refs;
      ghost var InLeft(c, p, e, wt, up) := loc.path;
      LookUp(loc.path, loc.t);
      LookNephews(loc);
      var w := x.parent.right;
      Paint(w, Black, Across(loc), wt);
      Paint(x.parent, Red, up, Node(c, loc.t, p, e, wt.(color := Black)));
      LeftRotateAt(x.parent, up, Node(Red, loc.t, p, e, wt.(color := Black)));
      ghost var next := LiftRedSibling(loc);
      assert Join(next.path.up, Join(next.path, next.t)) == RotateLeft(Node(Red, loc.t, p, e, wt.(color := Black)));
      if loc.t.Node? { Look(next.path, next.t); }
    }

    /** The sibling on the right is turned below its red left child. */
    method TurnRightNephews(x: RbNode, ghost loc: Place)
      requires At(x, loc) && loc.path.InLeft? && HasSibling(loc.path) && NearNephew(loc.path).Node?
      modifies this`root, this`tree, Refs(tree)`color, Refs(tree)`left, Refs(tree)`right, Refs(tree)`parent
      ensures At(x, TurnNephews(loc)) && Refs(tree) == old(Refs(tree))
    {
      hide Linked, Refs;
      ghost var InLeft(c, p, e, wt, up) := loc.path;
      ghost var wpath := Across(loc);
      LookUp(loc.path, loc.t);
      LookNephews(loc);
      var w := x.parent.right;
      Paint(w.left, Black, InLeft(wt.color, wt.p, wt.e, wt.right, wpath), wt.left);
      Paint(w, Red, wpath, wt.(left := Blacken(wt.left)));
      RightRotateAt(w, wpath, Node(Red, Blacken(wt.left), wt.p, wt.e, wt.right));
      ghost var next := TurnNephews(loc);
      assert Join(next.path, next.t) == Join(wpath, Sibling(next.path));
      if loc.t.Node? { Look(next.path, next.t); }
    }

    /** The parent is turned below the sibling on the right, which takes its colour. */
    method PayOffFromRight(x: RbNode, ghost loc: Place)
      requires At(x, loc) && loc.path.InLeft? && HasSibling(loc.path) && FarNephew(loc.path).Node?
      modifies this`root, this`tree, Refs(tree)`color, Refs(tree)`left, Refs(tree)`right, Refs(tree)`parent
      ensures Linked() && tree == PayOff(loc) && Refs(tree) == old(Refs(tree)) && nil.color == old(nil.color)
    {
      hide Linked, Refs;
      ghost var InLeft(c, p, e, wt, up) := loc.path;
      ghost var wpath := Across(loc);
      LookUp(loc.path, loc.t);
      LookNephews(loc);
      var w := x.parent.right;
      Paint(w, x.parent.color, wpath, wt);
      wt := wt.(color := c);
      Paint(x.parent, Black, up, Node(c, loc.t, p, e, wt));
      Paint(w.right, Black, InRight(c, wt.left, wt.p, wt.e, InRight(Black, loc.t, p, e, up)), wt.right);
      LeftRotateAt(x.parent, up, Node(Black, loc.t, p, e, wt.(right := Blacken(wt.right))));
    }

    /** One turn of the deletion loop with the focus on the left; returns the next focus. */
    method DeleteTurnLeft(x0: RbNode, ghost at: Place) returns (x: RbNode)
      requires At(x0, at) && DeleteInv(at) && DeleteBusy(at) && at.path.InLeft?
      modifies this`root, this`tree, Refs(tree)`color, Refs(tree)`left, Refs(tree)`right, Refs(tree)`parent
      ensures At(x, DeleteStep(at)) && Refs(tree) == old(Refs(tree))
    {
      hide Linked, Refs;
      x := x0;
      ghost var loc := at;
      DeleteHasSibling(loc);
      LookUp(loc.path, loc.t);
      LookNephews(loc);
      var w := x.parent.right;
      if w.color == Red {
        LiftKeepsInv(loc);
        LiftFromRight(x, loc);
        loc := LiftRedSibling(loc);
        LookUp(loc.path, loc.t);
        LookNephews(loc);
        w := x.parent.right;
      }
      if w.left.color == Black && w.right.color == Black {
        Paint(w, Red, Across(loc), Sibling(loc.path));
        x := x.parent;
        ghost var next := PushUp(loc);
        assert Join(Across(loc), Redden(Sibling(loc.path))) == next.t;
        Look(next.path, next.t);
      } else {
        if w.right.color == Black {
          TurnKeepsInv(loc);
          TurnRightNephews(x, loc);
          loc := TurnNephews(loc);
        }
        PayOffFromRight(x, loc);
        PayOffNode(loc);
        LookTop();
        x := root;
        Look(Top, tree);
      }
    }

    /** A red sibling on the left is turned above the parent. */
    method LiftFromLeft(x: RbNode, ghost loc: Place)
      requires At(x, loc) && loc.path.InRight? && HasSibling(loc.path)
      modifies this`root, this`tree, Refs(tree)`color, Refs(tree)`right, Refs(tree)`left, Refs(tree)`parent
      ensures At(x, LiftRedSibling(loc)) && Refs(tree) == old(Refs(tree))
    {
      hide Linked, Refs;
      ghost var InRight(c, wt, p, e, up) := loc.path;
      LookUp(loc.path, loc.t);
      LookNephews(loc);
      var w := x.parent.left;
      Paint(w, Black, Across(loc), wt);
      Paint(x.parent, Red, up, Node(c, wt.(color := Black), p, e, loc.t));
      RightRotateAt(x.parent, up, Node(Red, wt.(color := Black), p, e, loc.t));
      ghost var next := LiftRedSibling(loc);
      assert Join(next.path.up, Join(next.path, next.t)) == RotateRight(Node(Red, wt.(color := Black), p, e, loc.t));
      if loc.t.Node? { Look(next.path, next.t); }
    }

    /** The sibling on the left is turned below its red right child. */
    method TurnLeftNephews(x: RbNode, ghost loc: Place)
      requires At(x, loc) && loc.path.InRight? && HasSibling(loc.path) && NearNephew(loc.path).Node?
      modifies this`root, this`tree, Refs(tree)`color, Refs(tree)`right, Refs(tree)`left, Refs(tree)`parent
      ensures At(x, TurnNephews(loc)) && Refs(tree) == old(Refs(tree))
    {
      hide Linked, Refs;
      ghost var InRight(c, wt, p, e, up) := loc.path;
      ghost var wpath := Across(loc);
      LookUp(loc.path, loc.t);
      LookNephews(loc);
      var w := x.parent.left;
      Paint(w.right, Black, InRight(wt.color, wt.left, wt.p, wt.e, wpath), wt.right);
      Paint(w, Red, wpath, wt.(right := Blacken(wt.right)));
      LeftRotateAt(w, wpath, Node(Red, wt.left, wt.p, wt.e, Blacken(wt.right)));
      ghost var next := TurnNephews(loc);
      assert Join(next.path, next.t) == Join(wpath, Sibling(next.path));
      if loc.t.Node? { Look(next.path, next.t); }
    }

    /** The parent is turned below the sibling on the left, which takes its colour. */
    method PayOffFromLeft(x: RbNode, ghost loc: Place)
      requires At(x, loc) && loc.path.InRight? && HasSibling(loc.path) && FarNephew(loc.path).Node?
      modifies this`root, this`tree, Refs(tree)`color, Refs(tree)`right, Refs(tree)`left, Refs(tree)`parent
      ensures Linked() && tree == PayOff(loc) && Refs(tree) == old(Refs(tree)) && nil.color == old(nil.color)
    {
      hide Linked, Refs;
      ghost var InRight(c, wt, p, e, up) := loc.path;
      ghost var wpath := Across(loc);
      LookUp(loc.path, loc.t);
      LookNephews(loc);
      var w := x.parent.left;
      Paint(w, x.parent.color, wpath, wt);
      wt := wt.(color := c);
      Paint(x.parent, Black, up, Node(c, wt, p, e, loc.t));
      Paint(w.left, Black, InLeft(c, wt.p, wt.e, wt.right, InLeft(Black, p, e, loc.t, up)), wt.left);
      RightRotateAt(x.parent, up, Node(Black, wt.(left := Blacken(wt.left)), p, e, loc.t));
    }

    /** One turn of the deletion loop with the focus on the right; returns the next focus. */
    method DeleteTurnRight(x0: RbNode, ghost at: Place) returns (x: RbNode)
      requires At(x0, at) && DeleteInv(at) && DeleteBusy(at) && at.path.InRight?
      modifies this`root, this`tree, Refs(tree)`color, Refs(tree)`right, Refs(tree)`left, Refs(tree)`parent
      ensures At(x, DeleteStep(at)) && Refs(tree) == old(Refs(tree))
    {
      hide Linked, Refs;
      x := x0;
      ghost var loc := at;
      DeleteHasSibling(loc);
      LookUp(loc.path, loc.t);
      LookNephews(loc);
      var w := x.parent.left;
      if w.color == Red {
        LiftKeepsInv(loc);
        LiftFromLeft(x, loc);
        loc := LiftRedSibling(loc);
        LookUp(loc.path, loc.t);
        LookNephews(loc);
        w := x.parent.left;
      }
      if w.right.color == Black && w.left.color == Black {
        Paint(w, Red, Across(loc), Sibling(loc.path));
        x := x.parent;
        ghost var next := PushUp(loc);
        assert Join(Across(loc), Redden(Sibling(loc.path))) == next.t;
        Look(next.path, next.t);
      } else {
        if w.left.color == Black {
          TurnKeepsInv(loc);
          TurnLeftNephews(x, loc);
          loc := TurnNephews(loc);
        }
        PayOffFromLeft(x, loc);
        PayOffNode(loc);
        LookTop();
        x := root;
        Look(Top, tree);
      }
    }

    /** The deletion fixup: the loop, then the focus painted black. */
    method DeleteFixup(x0: RbNode, ghost at: Place)
      requires At(x0, at) && DeleteInv(at)
      modifies this`root, this`tree, nil`color, Refs(tree)`color, Refs(tree)`left, Refs(tree)`right, Refs(tree)`parent
      ensures Linked() && tree == Deletion.DeleteFixup(at) && Refs(tree) == old(Refs(tree))
    {
      hide Linked, Refs, Plug, DeleteStep;
      var x := x0;
      ghost var loc := at;
      LookAt(x, loc);
      while x != root && x.color == Black
        invariant At(x, loc) && DeleteInv(loc)
        invariant Deletion.DeleteFixup(loc) == Deletion.DeleteFixup(at)
        invariant Refs(tree) == old(Refs(tree))
        invariant x == root <==> loc.path.Top?
        invariant x.color == RootColor(loc.t)
        decreases DeleteMeasure(loc)
      {
        DeleteHasSibling(loc);
        LookUp(loc.path, loc.t);
        LookNephews(loc);
        if x == x.parent.left {
          x := DeleteTurnLeft(x, loc);
        } else {
          x := DeleteTurnRight(x, loc);
        }
        loc := DeleteStep(loc);
        LookAt(x, loc);
      }
      LookAt(x, loc);
      if x == nil {
        PaintNil();
      } else {
        Paint(x, Black, loc.path, loc.t);
      }
    }

    // ---------------------------------------------------------------- hanging in, cutting out, swapping

    /** A new node `z` is hung below `y`, on the side its key asks for. */
    method Hang(z: RbNode, y: RbNode)
      requires z != nil && z != y
      modifies this`root, z`parent, z`left, z`right, z`color
      modifies (if y != nil then {y} else {})`left
      modifies (if y != nil then {y} else {})`right
      ensures z.parent == y && z.left == nil && z.right == nil && z.color == Red
      ensures root == if y == nil then z else old(root)
      ensures y != nil && StrCmp(z.key, y.key) < 0 ==> y.left == z && y.right == old(y.right)
      ensures y != nil && StrCmp(z.key, y.key) >= 0 ==> y.right == z && y.left == old(y.left)
    {
      z.parent := y;
      if y == nil {
        root := z;
      } else if StrCmp(z.key, y.key) < 0 {
        y.left := z;
      } else {
        y.right := z;
      }
      z.left := nil;
      z.right := nil;
      z.color := Red;
    }

    method HangStored(z: RbNode, y: RbNode, ghost onLeft: bool, ghost m: Memory, ghost m': Memory)
      requires Stores(m) && Hung(m, m', z, Entry(z.key, z.value), y, onLeft, nil)
      requires y in m ==> (onLeft <==> StrCmp(z.key, y.key) < 0)
      modifies this`root, z`parent, z`left, z`right, z`color, m.Keys`left, m.Keys`right
      ensures Stores(m')
      ensures root == if y == nil then z else old(root)
    {
      Hang(z, y);
      assert z.Holds(m'[z]);
      assert y in m ==> y.Holds(m'[y]);
      forall n | n in m && n != y ensures n.Holds(m'[n]) {
        assert old(n.Holds(m[n]));
      }
    }

    method HangAt(z: RbNode, y: RbNode, ghost path: Way)
      requires Linked() && tree == Plug(path, Leaf) && y == PathRef(path, nil)
      requires z != nil && z !in Refs(tree) && OnKeySide(path, z.key)
      modifies this`root, this`tree, this`repr, z`parent, z`left, z`right, z`color, Refs(tree)`left, Refs(tree)`right
      ensures Linked() && tree == Plug(path, Node(Red, Leaf, z, Entry(z.key, z.value), Leaf))
      ensures Refs(tree) == old(Refs(tree)) + {z}
    {
      hide Plug, Refs, Proper, Layout, Store, Hung, Stores;
      ghost var t' := Node(Red, Leaf, z, Entry(z.key, z.value), Leaf);
      AttachProper(path, z, Entry(z.key, z.value));
      AttachCells(path, z, Entry(z.key, z.value), nil);
      PlugRoot(path, Leaf, t', nil);
      if !path.Top? { LookUp(path, Leaf); }
      HangStored(z, y, path.InLeft?, Store(tree, nil), Store(Plug(path, t'), nil));
      repr := repr + {z};
      tree := Plug(path, t');
    }

    /** The node `y`, which has at most one child, is cut out; its child takes its place. */
    method CutOut(y: RbNode) returns (x: RbNode)
      requires y.left != null && y.right != null && y.parent != null
      requires y != nil && y.parent != y && y.left != y && y.right != y
      requires y.left != nil ==> y.left != y.parent
      requires y.right != nil ==> y.right != y.parent
      modifies this`root
      modifies (if y.left != nil then {y.left} else {y.right})`parent
      modifies (if y.parent != nil then {y.parent} else {})`left
      modifies (if y.parent != nil then {y.parent} else {})`right
      ensures x == if old(y.left) != nil then old(y.left) else old(y.right)
      ensures x.parent == y.parent == old(y.parent)
      ensures root == if y.parent == nil then x else old(root)
      ensures y.left == old(y.left) && y.right == old(y.right)
      ensures y.parent != nil ==>
                if old(y.parent.left) == y then y.parent.left == x && y.parent.right == old(y.parent.right)
                else y.parent.right == x && y.parent.left == old(y.parent.left)
    {
      x := nil;
      if y.left != nil {
        x := y.left;
      } else if y.right != nil {
        x := y.right;
      }

      x.parent := y.parent;
      if y.parent == nil {
        root := x;
      } else if y == y.parent.left {
        y.parent.left := x;
      } else {
        y.parent.right := x;
      }
    }

    /** What it means, field by field, that an object holds a cell. */
    lemma Fields(n: RbNode, c: Cell<RbNode, Entry>)
      ensures n.Holds(c) <==>
                && n.color == c.color && n.left == c.left && n.right == c.right && n.parent == c.parent
                && n.key == c.e.key && n.value == c.e.value
    {
    }

    method CutOutStored(y: RbNode, ghost kid: RbNode, ghost up: RbNode, ghost m: Memory, ghost m': Memory)
        returns (x: RbNode)
      requires Stores(m) && y in m && kid == if m[y].left != nil then m[y].left else m[y].right
      requires (m[y].left == nil || m[y].right == nil) && CutOutOf(m, m', y, kid, up, nil)
      modifies this`root, nil`parent, m.Keys`left, m.Keys`right, m.Keys`parent
      ensures x == kid && Stores(m') && x.parent == up
      ensures root == if up == nil then x else old(root)
    {
      hide RbNode.Holds;
      Fields(y, m[y]);
      if kid in m { Fields(kid, m[kid]); }
      if up in m { Fields(up, m[up]); }
      x := CutOut(y);
      if kid in m { Fields(kid, m'[kid]); }
      if up in m { Fields(up, m'[up]); }
    }

    method CutOutAt(y: RbNode, ghost path: Way, ghost t: Shape) returns (x: RbNode)
      requires Linked() && tree == Plug(path, t) && Cuttable(t) && t.p == y
      modifies this`root, this`tree, this`repr, nil`parent, Refs(tree)`left, Refs(tree)`right, Refs(tree)`parent
      ensures At(x, Loc(path, OnlyChild(t))) && Refs(tree) == old(Refs(tree)) - {y}
    {
      hide Plug, Refs, Proper, Layout, Store, CutOutOf, Stores;
      FocusCell(path, t, nil);
      SpliceProper(path, t);
      SpliceCells(path, t, nil);
      PlugRoot(path, t, OnlyChild(t), nil);
      ghost var m, m' := Store(tree, nil), Store(Plug(path, OnlyChild(t)), nil);
      x := CutOutStored(y, RootRef(OnlyChild(t), nil), PathRef(path, nil), m, m');
      repr := repr - {y};
      tree := Plug(path, OnlyChild(t));
    }

    /** The assignments `n.key := key` and `n.value := value`, at the node in focus. */
    method SetEntry(n: RbNode, key: CString, value: CString, ghost path: Way, ghost t: Shape)
      requires Linked() && tree == Plug(path, t) && t.Node? && t.p == n
      modifies n`key, n`value, this`tree
      ensures Linked() && tree == Plug(path, t.(e := Entry(key, value))) && Refs(tree) == old(Refs(tree))
    {
      hide Plug, Refs, Proper, Layout, Store;
      ghost var t' := t.(e := Entry(key, value));
      PaintCells(path, t, t.color, Entry(key, value), nil);
      FocusCell(path, t, nil);
      PlugRoot(path, t, t', nil);
      ghost var m, m' := Store(tree, nil), Store(Plug(path, t'), nil);
      assert Stores(m);
      n.key := key;
      n.value := value;
      assert n.Holds(m'[n]);
      forall k | k in m' && k != n ensures k.Holds(m'[k]) {
        assert k in m && m'[k] == m[k];
      }
      tree := Plug(path, t');
    }

    /** The node `z` in focus and a node `y` outside the tree exchange their entries. */
    method Exchange(z: RbNode, y: RbNode, ghost path: Way, ghost t: Shape)
      requires Linked() && tree == Plug(path, t) && t.Node? && t.p == z && y !in Refs(tree) && y != nil
      modifies z`key, z`value, y`key, y`value, this`tree
      ensures Linked() && tree == Plug(path, t.(e := Entry(old(y.key), old(y.value))))
      ensures Refs(tree) == old(Refs(tree)) && y.key == t.e.key && y.value == t.e.value
    {
      hide Linked, Refs, Plug;
      Look(path, t);
      var tmp := z.key;
      var tmp' := z.value;
      SetEntry(z, y.key, y.value, path, t);
      y.key := tmp;
      y.value := tmp';
    }

    // ---------------------------------------------------------------- the operations

    /** The invariant of the engine between calls. */
    ghost predicate Valid()
      reads this`root, this`tree, this`repr, nil, Refs(tree)
    {
      Linked() && Good(tree)
    }

    lemma Nodes()
      requires Valid()
      ensures repr == Refs(tree)
    {
    }

    method Search(key: CString) returns (node: RbNode, ghost steps: nat)
      requires Valid()
      ensures Valid() && node == RootRef(Find(tree, key).t, nil)
      ensures node == nil <==> key !in Contents(tree)
      ensures steps == Comparisons(Find(tree, key))
      ensures Pow2(steps) <= (|Contents(tree)| + 1) * (|Contents(tree)| + 1)
      ensures node != nil ==> node.key == key && node.value == Contents(tree)[key]
    {
      hide Linked, RedBlack.Valid, Sorted, Refs, Contents;
      ghost var loc := Loc(Top, tree);
      LookTop();
      node, steps := root, 0;
      while node != nil
        invariant Linked() && tree == Whole(loc) && node == RootRef(loc.t, nil)
        invariant Seek(loc.path, loc.t, key) == Find(tree, key)
        invariant steps == Depth(loc.path)
        decreases loc.t
      {
        Look(loc.path, loc.t);
        steps := steps + 1;
        if StrCmp(key, node.key) < 0 {
          node := node.left;
          loc := Loc(InLeft(loc.t.color, loc.t.p, loc.t.e, loc.t.right, loc.path), loc.t.left);
        } else if StrCmp(key, node.key) > 0 {
          node := node.right;
          loc := Loc(InRight(loc.t.color, loc.t.left, loc.t.p, loc.t.e, loc.path), loc.t.right);
        } else {
          break;
        }
      }
      if loc.t.Node? { Look(loc.path, loc.t); }
      FindAgrees(tree, key);
      FindIsShort(tree, key);
    }

    method Insert(z: RbNode)
      requires Valid() && z != nil && z !in Refs(tree)
      modifies this`root, this`tree, this`repr, z`color, z`left, z`right, z`parent
      modifies Refs(tree)`color, Refs(tree)`left, Refs(tree)`right, Refs(tree)`parent
      ensures Valid() && tree == Put(old(tree), z, Entry(z.key, z.value))
      ensures Refs(tree) == if z.key in old(Contents(tree)) then old(Refs(tree)) else old(Refs(tree)) + {z}
    {
      hide Linked, RedBlack.Valid, Sorted, Refs, Contents, RedBlack.InsertFixup;
      var y, x := nil, root;
      ghost var loc := Loc(Top, tree);
      ghost var e := Entry(z.key, z.value);
      PutRefines(tree, z, e);
      FindAgrees(tree, z.key);
      LookTop();
      while x != nil
        invariant Linked() && tree == old(tree) == Whole(loc)
        invariant x == RootRef(loc.t, nil) && y == PathRef(loc.path, nil)
        invariant Seek(loc.path, loc.t, z.key) == Find(tree, z.key)
        invariant OnKeySide(loc.path, z.key)
        decreases loc.t
      {
        Look(loc.path, loc.t);
        y := x;
        if StrCmp(z.key, x.key) < 0 {
          x := x.left;
          loc := Loc(InLeft(loc.t.color, loc.t.p, loc.t.e, loc.t.right, loc.path), loc.t.left);
        } else if StrCmp(z.key, x.key) > 0 {
          x := x.right;
          loc := Loc(InRight(loc.t.color, loc.t.left, loc.t.p, loc.t.e, loc.path), loc.t.right);
        } else {
          return;
        }
      }
      if loc.t.Node? { Look(loc.path, loc.t); }
      AttachInv(loc.path, z, e);
      HangAt(z, y, loc.path);
      InsertFixup(z, Loc(loc.path, Node(Red, Leaf, z, e, Leaf)));
    }

    method Mini(x0: RbNode, ghost path: Way, ghost t: Shape) returns (x: RbNode)
      requires Linked() && tree == Plug(path, t) && t.Node? && t.p == x0
      ensures Linked() && x == Leftmost(path, t).t.p
    {
      hide Linked, Refs;
      x := x0;
      ghost var loc := Loc(path, t);
      Look(loc.path, loc.t);
      while x.left != nil
        invariant Linked() && tree == Whole(loc) && loc.t.Node? && x == loc.t.p
        invariant x.left == RootRef(loc.t.left, nil)
        invariant Leftmost(path, t) == Leftmost(loc.path, loc.t)
        decreases loc.t
      {
        LookChildren(loc.path, loc.t);
        x := x.left;
        loc := Loc(InLeft(loc.t.color, loc.t.p, loc.t.e, loc.t.right, loc.path), loc.t.left);
        Look(loc.path, loc.t);
      }
      LookChildren(loc.path, loc.t);
    }

    /** The next node in key order, or the sentinel after the last one. */
    method Successor(x0: RbNode, ghost at: Place) returns (y: RbNode)
      requires Linked() && tree == Whole(at) && at.t.Node? && at.t.p == x0
      ensures Linked()
      ensures var rest := Items(at.t.right) + After(at.path);
              y == if rest == [] then nil else rest[0].0
      ensures at.t.right.Node? ==>
                y == Leftmost(InRight(at.t.color, at.t.left, at.t.p, at.t.e, at.path), at.t.right).t.p
    {
      hide Linked, Refs, Leftmost;
      var x := x0;
      ghost var loc := at;
      Look(loc.path, loc.t);
      y := x.parent;
      ghost var right := InRight(at.t.color, at.t.left, at.t.p, at.t.e, at.path);
      LookChildren(at.path, at.t);
      if x.right != nil {
        LeftmostItem(right, at.t.right);
        y := Mini(x.right, right, at.t.right);
        return;
      }
      while y != nil && x == y.right
        invariant Linked() && tree == Whole(loc) && loc.t.Node? && x == loc.t.p
        invariant y == PathRef(loc.path, nil)
        invariant After(loc.path) == After(at.path)
        decreases Depth(loc.path)
      {
        LookUp(loc.path, loc.t);
        x := y;
        loc := Loc(loc.path.up, Join(loc.path, loc.t));
        y := y.parent;
      }
      if !loc.path.Top? { LookUp(loc.path, loc.t); }
    }

    /** Deletes the node `z` in focus; returns the node object that left the tree. */
    method Delete(z: RbNode, ghost at: Place) returns (y: RbNode)
      requires Linked() && RedBlack.Valid(tree) && tree == Whole(at) && at.t.Node? && at.t.p == z
      modifies this`root, this`tree, this`repr, nil`parent, nil`color, Refs(tree)
      ensures Linked() && tree == Erase(at)
      ensures Refs(tree) == old(Refs(tree)) - {y} && y in old(Refs(tree))
      ensures y.key == at.t.e.key && y.value == at.t.e.value
    {
      hide Linked, Refs, Plug, RedBlack.Valid, Leftmost, Deletion.DeleteFixup, DeleteInv;
      DoomedValid(at);
      CutKeeps(Doomed(at).path, Doomed(at).t);
      Look(at.path, at.t);
      LookChildren(at.path, at.t);
      ghost var d := at;
      if z.left == nil || z.right == nil {
        y := z;
      } else {
        d := Leftmost(InRight(at.t.color, at.t.left, at.t.p, at.t.e, at.path), at.t.right);
        DoomedAside(at, OnlyChild(d.t));
        y := Successor(z, at);
      }
      Look(d.path, d.t);
      var x := CutOutAt(y, d.path, d.t);
      if y != z {
        Exchange(z, y, at.path, at.t.(right := Plug(Leftmost(Top, at.t.right).path, OnlyChild(d.t))));
      }
      if y.color == Black {
        DeleteFixup(x, Loc(Doomed(at).path, OnlyChild(d.t)));
      }
    }

    // ---------------------------------------------------------------- the engine's interface

    /** SET: adds a binding; an existing key keeps its old value, but is counted again. */
    method Set(key: CString, value: CString) returns (ret: int)
      requires Valid()
      modifies this`root, this`tree, this`repr, this`count, Refs(tree)
      ensures Valid() && ret == 0 && count == old(count) + 1
      ensures var m := old(Contents(tree)); Contents(tree) == if key in m then m else m[key := value]
      ensures fresh(Refs(tree) - old(Refs(tree)))
    {
      hide Refs, Plug, Proper, Layout, Store, Put, Good, Contents;
      var node := new RbNode(key, value);
      PutRefines(tree, node, Entry(key, value));
      Insert(node);
      count := count + 1;
      ret := 0;
    }

    method Get(key: CString) returns (value: Reply)
      requires Valid()
      ensures Valid()
      ensures value == if key in Contents(tree) then Some(Contents(tree)[key]) else None
    {
      var node, _ := Search(key);
      if node == nil {
        return None;
      }
      return Some(node.value);
    }

    method Del(key: CString) returns (ret: int)
      requires Valid()
      modifies this`root, this`tree, this`repr, this`count, nil`parent, nil`color, Refs(tree)
      ensures Valid() && Refs(tree) <= old(Refs(tree))
      ensures ret == if key in old(Contents(tree)) then 0 else -1
      ensures Contents(tree) == old(Contents(tree)) - {key}
      ensures count == if ret == 0 then old(count) - 1 else old(count)
    {
      hide Linked, Refs, Erase;
      var node, _ := Search(key);
      if node == nil {
        return -1;
      }
      EraseRefines(tree, key);
      var cur := Delete(node, Find(tree, key));
      count := count - 1;
      ret := 0;
    }

    method Modify(key: CString, value: CString) returns (ret: int)
      requires Valid()
      modifies this`tree, Refs(tree)`key, Refs(tree)`value
      ensures Valid() && Refs(tree) == old(Refs(tree))
      ensures ret == if key in old(Contents(tree)) then 0 else -1
      ensures Contents(tree) == if ret == 0 then old(Contents(tree))[key := value] else old(Contents(tree))
    {
      hide Linked, Refs;
      var node, _ := Search(key);
      if node == nil {
        return -1;
      }
      ghost var at := Find(tree, key);
      OverwriteRefines(tree, key, value);
      Look(at.path, at.t);
      SetEntry(node, key, value, at.path, at.t);
      ret := 0;
    }
  }
}
