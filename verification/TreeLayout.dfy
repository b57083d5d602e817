/** What a heap must hold to store a tree: one cell of links per reference.

    `Layout(t, parent, nil)` is the expected content of every node object of `t`, with
    `parent` above the root and `nil` standing for the missing children.  A pointer tree is
    correct when its nodes hold exactly the layout of a valid tree, so each in-place update
    of the source becomes a statement about how a layout changes. */
module TreeLayout {
  import opened RedBlack
  import opened Deletion

  datatype Cell<P, E> = Cell(color: Color, left: P, right: P, parent: P, e: E)

  ghost function Refs<P, E>(t: Tree<P, E>): set<P> {
    if t.Leaf? then {} else Refs(t.left) + {t.p} + Refs(t.right)
  }

  /** Every node object occurs once. */
  ghost predicate Proper<P, E>(t: Tree<P, E>) {
    t.Node? ==>
      && Proper(t.left) && Proper(t.right)
      && t.p !in Refs(t.left) && t.p !in Refs(t.right) && Refs(t.left) !! Refs(t.right)
  }

  ghost function RootRef<P, E>(t: Tree<P, E>, nil: P): P {
    if t.Leaf? then nil else t.p
  }

  /** The object above the focus. */
  ghost function PathRef<P, E>(path: Path<P, E>, nil: P): P {
    if path.Top? then nil else path.p
  }

  ghost function Layout<P, E>(t: Tree<P, E>, parent: P, nil: P): (m: map<P, Cell<P, E>>)
    ensures m.Keys == Refs(t)
  {
    match t
    case Leaf => map[]
    case Node(c, l, p, e, r) =>
      Layout(l, p, nil) + Layout(r, p, nil)
      + map[p := Cell(c, RootRef(l, nil), RootRef(r, nil), parent, e)]
  }

  // ------------------------------------------------------------------ distinctness

  ghost function Firsts<P, E>(s: seq<(P, E)>): seq<P> {
    seq(|s|, i requires 0 <= i < |s| => s[i].0)
  }

  ghost predicate Distinct<P>(s: seq<P>) {
    forall i, j :: 0 <= i < j < |s| ==> s[i] != s[j]
  }

  ghost predicate Apart<P>(a: seq<P>, b: seq<P>) {
    forall i, j :: 0 <= i < |a| && 0 <= j < |b| ==> a[i] != b[j]
  }

  ghost predicate Lists<P>(s: seq<P>, xs: set<P>) {
    && (forall i :: 0 <= i < |s| ==> s[i] in xs)
    && (forall x :: x in xs ==> x in s)
  }

  lemma DistinctConcat<P>(a: seq<P>, b: seq<P>)
    ensures Distinct(a + b) <==> Distinct(a) && Distinct(b) && Apart(a, b)
  {
    var s := a + b;
    assert forall i :: 0 <= i < |a| ==> s[i] == a[i];
    assert forall i :: |a| <= i < |s| ==> s[i] == b[i - |a|];
    if Distinct(s) {
      forall i, j | 0 <= i < j < |b| ensures b[i] != b[j] {
        assert s[|a| + i] == b[i] && s[|a| + j] == b[j];
      }
      forall i, j | 0 <= i < |a| && 0 <= j < |b| ensures a[i] != b[j] {
        assert s[i] == a[i] && s[|a| + j] == b[j];
      }
    }
  }

  lemma ApartIffDisjoint<P>(a: seq<P>, xs: set<P>, b: seq<P>, ys: set<P>)
    requires Lists(a, xs) && Lists(b, ys)
    ensures Apart(a, b) <==> xs !! ys
    ensures Lists(a + b, xs + ys)
  {
  }

  /** The objects of a tree are those of its in-order contents, each once if it is proper. */
  lemma {:induction false} RefsInOrder<P, E>(t: Tree<P, E>)
    ensures Lists(Firsts(Items(t)), Refs(t))
    ensures Proper(t) <==> Distinct(Firsts(Items(t)))
  {
    if t.Node? {
      var a, m, b := Firsts(Items(t.left)), [t.p], Firsts(Items(t.right));
      RefsInOrder(t.left);
      RefsInOrder(t.right);
      assert Firsts(Items(t)) == a + m + b;
      ApartIffDisjoint(a, Refs(t.left), m, {t.p});
      ApartIffDisjoint(a + m, Refs(t.left) + {t.p}, b, Refs(t.right));
      DistinctConcat(a + m, b);
      DistinctConcat(a, m);
    }
  }

  /** Trees with the same in-order contents are proper together and hold the same objects. */
  lemma SameItems<P, E>(t: Tree<P, E>, t': Tree<P, E>)
    requires Items(t) == Items(t')
    ensures Proper(t) <==> Proper(t')
    ensures Refs(t) == Refs(t')
  {
    RefsInOrder(t);
    RefsInOrder(t');
  }

  // ------------------------------------------------------------------ focus and surroundings

  ghost function PathRefs<P, E>(path: Path<P, E>): set<P> {
    match path
    case Top => {}
    case InLeft(_, p, _, r, up) => {p} + Refs(r) + PathRefs(up)
    case InRight(_, l, p, _, up) => {p} + Refs(l) + PathRefs(up)
  }

  /** The cells of the surroundings, when `hole` is the object in focus. */
  ghost function PathLayout<P, E>(path: Path<P, E>, hole: P, nil: P): (m: map<P, Cell<P, E>>)
    ensures m.Keys == PathRefs(path)
  {
    match path
    case Top => map[]
    case InLeft(c, p, e, r, up) =>
      PathLayout(up, p, nil) + Layout(r, p, nil)
      + map[p := Cell(c, hole, RootRef(r, nil), PathRef(up, nil), e)]
    case InRight(c, l, p, e, up) =>
      PathLayout(up, p, nil) + Layout(l, p, nil)
      + map[p := Cell(c, RootRef(l, nil), hole, PathRef(up, nil), e)]
  }

  lemma MoveLast<K, V>(a: map<K, V>, b: map<K, V>, c: map<K, V>, d: map<K, V>)
    requires b.Keys !! c.Keys && b.Keys !! d.Keys
    ensures a + (b + c + d) == (a + c + d) + b
    ensures a + (c + b + d) == (a + c + d) + b
  {
  }

  /** Focus and surroundings split a whole tree's objects in two. */
  lemma {:induction false} PlugRefs<P, E>(path: Path<P, E>, t: Tree<P, E>)
    requires Proper(Plug(path, t))
    ensures Proper(t) && Refs(t) !! PathRefs(path)
    ensures Refs(Plug(path, t)) == Refs(t) + PathRefs(path)
    decreases path
  {
    if !path.Top? {
      PlugRefs(path.up, Join(path, t));
    }
  }

  /** The cells of a whole tree, seen from a focus. */
  ghost function FocusStore<P, E>(path: Path<P, E>, t: Tree<P, E>, nil: P): map<P, Cell<P, E>> {
    PathLayout(path, RootRef(t, nil), nil) + Layout(t, PathRef(path, nil), nil)
  }

  lemma {:induction false} JoinLayout<P, E>(path: Path<P, E>, t: Tree<P, E>, nil: P)
    requires !path.Top? && Proper(Join(path, t))
    ensures FocusStore(path, t, nil) == FocusStore(path.up, Join(path, t), nil)
  {
    match path
    case InLeft(c, p, e, r, up) =>
      MoveLast(PathLayout(up, p, nil), Layout(t, p, nil), Layout(r, p, nil),
               map[p := Cell(c, RootRef(t, nil), RootRef(r, nil), PathRef(up, nil), e)]);
    case InRight(c, l, p, e, up) =>
      MoveLast(PathLayout(up, p, nil), Layout(t, p, nil), Layout(l, p, nil),
               map[p := Cell(c, RootRef(l, nil), RootRef(t, nil), PathRef(up, nil), e)]);
  }

  lemma {:induction false} PlugLayout<P, E>(path: Path<P, E>, t: Tree<P, E>, nil: P)
    requires Proper(Plug(path, t))
    ensures Layout(Plug(path, t), nil, nil) == FocusStore(path, t, nil)
    decreases path
  {
    if !path.Top? {
      PlugRefs(path.up, Join(path, t));
      PlugLayout(path.up, Join(path, t), nil);
      JoinLayout(path, t, nil);
    }
  }

  // ------------------------------------------------------------------ reading and rewriting cells

  /** The whole-tree layout of the pointer structures: nothing above the root. */
  ghost function Store<P, E>(t: Tree<P, E>, nil: P): (m: map<P, Cell<P, E>>)
    ensures m.Keys == Refs(t)
  {
    Layout(t, nil, nil)
  }

  ghost predicate Agrees<P, E>(m: map<P, Cell<P, E>>, part: map<P, Cell<P, E>>) {
    forall x :: x in part ==> x in m && m[x] == part[x]
  }

  ghost predicate SameExcept<P, E>(m: map<P, Cell<P, E>>, m': map<P, Cell<P, E>>, xs: set<P>) {
    forall x :: x in m && x !in xs ==> x in m' && m'[x] == m[x]
  }

  /** `SameExcept` for four objects, some of which may be the same. */
  ghost predicate SameBut<P, E>(m: map<P, Cell<P, E>>, m': map<P, Cell<P, E>>, a: P, b: P, c: P, d: P) {
    forall x :: x in m && x != a && x != b && x != c && x != d ==> x in m' && m'[x] == m[x]
  }

  lemma ExceptFour<P, E>(m: map<P, Cell<P, E>>, m': map<P, Cell<P, E>>, a: P, b: P, c: P, d: P)
    requires SameExcept(m, m', {a, b, c} + {d})
    ensures SameBut(m, m', a, b, c, d) && SameBut(m, m', b, a, c, d)
  {
  }

  /** The cells of the objects in focus and around it. */
  lemma {:induction false} FocusCells<P, E>(path: Path<P, E>, t: Tree<P, E>, nil: P)
    requires Proper(Plug(path, t))
    ensures Agrees(Store(Plug(path, t), nil), Layout(t, PathRef(path, nil), nil))
    ensures Agrees(Store(Plug(path, t), nil), PathLayout(path, RootRef(t, nil), nil))
  {
    PlugRefs(path, t);
    PlugLayout(path, t, nil);
  }

  /** What the object in focus holds. */
  lemma {:induction false} FocusCell<P, E>(path: Path<P, E>, t: Tree<P, E>, nil: P)
    requires Proper(Plug(path, t)) && t.Node?
    ensures t.p in Refs(Plug(path, t))
    ensures Store(Plug(path, t), nil)[t.p]
         == Cell(t.color, RootRef(t.left, nil), RootRef(t.right, nil), PathRef(path, nil), t.e)
  {
    FocusCells(path, t, nil);
    assert t.p in Layout(t, PathRef(path, nil), nil);
  }

  /** What the parent of the focus holds: its link to the focus is on the side of the path
      and, when the focus is an object, on no other. */
  lemma {:induction false} ParentCell<P, E>(path: Path<P, E>, t: Tree<P, E>, nil: P)
    requires Proper(Plug(path, t)) && !path.Top?
    requires nil !in Refs(Plug(path, t))
    ensures path.p in Refs(Plug(path, t)) && path.p != nil
    ensures Store(Plug(path, t), nil)[path.p]
         == Cell(path.color, RootRef(if path.InLeft? then t else path.left, nil),
                 RootRef(if path.InLeft? then path.right else t, nil), PathRef(path.up, nil), path.e)
    ensures t.Node? ==> RootRef(Sibling(path), nil) != t.p && t.p != path.p && t.p != nil
  {
    FocusCell(path.up, Join(path, t), nil);
    PlugRefs(path.up, Join(path, t));
    if t.Node? {
      FocusCell(path, t, nil);
    }
  }

  /** Replacing the focus changes the root only when the focus is the root. */
  lemma {:induction false} PlugRoot<P, E>(path: Path<P, E>, t: Tree<P, E>, t': Tree<P, E>, nil: P)
    ensures RootRef(Plug(path, t'), nil) == if path.Top? then RootRef(t', nil) else RootRef(Plug(path, t), nil)
    ensures path.Top? ==> RootRef(Plug(path, t), nil) == RootRef(t, nil)
    decreases path
  {
    if !path.Top? {
      PlugRoot(path.up, Join(path, t), Join(path, t'), nil);
    }
  }

  lemma AppendRef<P, E>(inner: Path<P, E>, outer: Path<P, E>, nil: P)
    ensures PathRef(Append(inner, outer), nil) == if inner.Top? then PathRef(outer, nil) else inner.p
  {
  }

  /** The focus is the root exactly when nothing is above it. */
  lemma {:induction false} RootElsewhere<P, E>(path: Path<P, E>, t: Tree<P, E>, nil: P)
    requires Proper(Plug(path, t)) && nil !in Refs(Plug(path, t))
    ensures path.Top? <==> RootRef(Plug(path, t), nil) == RootRef(t, nil)
    decreases path
  {
    if !path.Top? {
      RootAbove(path, t, nil);
      PlugRefs(path, t);
    }
  }

  lemma {:induction false} RootAbove<P, E>(path: Path<P, E>, t: Tree<P, E>, nil: P)
    requires !path.Top?
    ensures RootRef(Plug(path, t), nil) in PathRefs(path)
    decreases path
  {
    if path.up.Top? {
      assert Plug(path, t) == Join(path, t);
    } else {
      RootAbove(path.up, Join(path, t), nil);
    }
  }

  /** The cell of the parent once its link to the focus points at `hole`. */
  ghost function Relink<P, E>(path: Path<P, E>, cell: Cell<P, E>, hole: P): Cell<P, E> {
    if path.InLeft? then cell.(left := hole) else cell.(right := hole)
  }

  lemma {:induction false} RelinkPath<P, E>(path: Path<P, E>, hole: P, hole': P, nil: P)
    ensures SameExcept(PathLayout(path, hole, nil), PathLayout(path, hole', nil), {PathRef(path, nil)})
    ensures !path.Top? ==>
              PathLayout(path, hole', nil)[path.p] == Relink(path, PathLayout(path, hole, nil)[path.p], hole')
  {
  }

  /** Replacing the focus rewrites the parent's link and, inside, only the cells in `xs`. */
  lemma {:induction false} ReplaceCells<P, E>(path: Path<P, E>, t: Tree<P, E>, t': Tree<P, E>, xs: set<P>, nil: P)
    requires Proper(Plug(path, t)) && Proper(Plug(path, t'))
    requires SameExcept(Layout(t, PathRef(path, nil), nil), Layout(t', PathRef(path, nil), nil), xs)
    ensures SameExcept(Store(Plug(path, t), nil), Store(Plug(path, t'), nil), xs + {PathRef(path, nil)})
    ensures !path.Top? ==>
              && path.p in Refs(Plug(path, t)) && path.p in Refs(Plug(path, t'))
              && Store(Plug(path, t'), nil)[path.p] == Relink(path, Store(Plug(path, t), nil)[path.p], RootRef(t', nil))
  {
    FocusCells(path, t, nil);
    FocusCells(path, t', nil);
    PlugRefs(path, t);
    ReplaceParts(Store(Plug(path, t), nil), Store(Plug(path, t'), nil), path, t, t', xs, nil);
  }

  lemma {:induction false} ReplaceParts<P, E>(m: map<P, Cell<P, E>>, m': map<P, Cell<P, E>>,
                            path: Path<P, E>, t: Tree<P, E>, t': Tree<P, E>, xs: set<P>, nil: P)
    requires m.Keys == Refs(t) + PathRefs(path)
    requires Agrees(m, Layout(t, PathRef(path, nil), nil)) && Agrees(m, PathLayout(path, RootRef(t, nil), nil))
    requires Agrees(m', Layout(t', PathRef(path, nil), nil)) && Agrees(m', PathLayout(path, RootRef(t', nil), nil))
    requires SameExcept(Layout(t, PathRef(path, nil), nil), Layout(t', PathRef(path, nil), nil), xs)
    ensures SameExcept(m, m', xs + {PathRef(path, nil)})
    ensures !path.Top? ==> path.p in m && path.p in m' && m'[path.p] == Relink(path, m[path.p], RootRef(t', nil))
  {
    RelinkPath(path, RootRef(t, nil), RootRef(t', nil), nil);
    if !path.Top? {
      assert path.p in PathRefs(path);
    }
  }

  /** A subtree under another parent differs in one cell. */
  lemma {:induction false} Reparent<P, E>(t: Tree<P, E>, parent: P, parent': P, nil: P)
    ensures SameExcept(Layout(t, parent, nil), Layout(t, parent', nil), {RootRef(t, nil)})
    ensures t.Node? ==> Layout(t, parent', nil)[t.p] == Layout(t, parent, nil)[t.p].(parent := parent')
  {
  }

  lemma {:induction false} PaintLocal<P, E>(t: Tree<P, E>, c: Color, e: E, parent: P, nil: P)
    requires t.Node?
    ensures SameExcept(Layout(t, parent, nil), Layout(t.(color := c, e := e), parent, nil), {t.p})
  {
  }

  lemma {:induction false} ChildCells<P, E>(t: Tree<P, E>, parent: P, nil: P)
    requires Proper(t) && t.Node?
    ensures Agrees(Layout(t, parent, nil), Layout(t.left, t.p, nil))
    ensures Agrees(Layout(t, parent, nil), Layout(t.right, t.p, nil))
  {
  }

  lemma AgreesTrans<P, E>(a: map<P, Cell<P, E>>, b: map<P, Cell<P, E>>, c: map<P, Cell<P, E>>)
    requires Agrees(a, b) && Agrees(b, c)
    ensures Agrees(a, c)
  {
  }

  /** Two trees hold the cells of `s` alike, up to the parent of its root. */
  lemma SharedSubtree<P, E>(m: map<P, Cell<P, E>>, m': map<P, Cell<P, E>>, s: Tree<P, E>, q: P, q': P, nil: P)
    requires Agrees(m, Layout(s, q, nil)) && Agrees(m', Layout(s, q', nil))
    ensures forall x :: x in Refs(s) && (q == q' || x != RootRef(s, nil)) ==> x in m && x in m' && m'[x] == m[x]
  {
    Reparent(s, q, q', nil);
  }

  lemma {:induction false} RotateLeftLocal<P, E>(t: Tree<P, E>, parent: P, nil: P)
    requires t.Node? && t.right.Node? && Proper(t) && Proper(RotateLeft(t))
    ensures SameExcept(Layout(t, parent, nil), Layout(RotateLeft(t), parent, nil),
                       {t.p, t.right.p, RootRef(t.right.left, nil)})
  {
    var t' := RotateLeft(t);
    var x, y, a, b, c := t.p, t.right.p, t.left, t.right.left, t.right.right;
    var m, m' := Layout(t, parent, nil), Layout(t', parent, nil);
    ChildCells(t, parent, nil);
    ChildCells(t.right, x, nil);
    ChildCells(t', parent, nil);
    ChildCells(t'.left, y, nil);
    AgreesTrans(m, Layout(t.right, x, nil), Layout(b, y, nil));
    AgreesTrans(m, Layout(t.right, x, nil), Layout(c, y, nil));
    AgreesTrans(m', Layout(t'.left, y, nil), Layout(a, x, nil));
    AgreesTrans(m', Layout(t'.left, y, nil), Layout(b, x, nil));
    SharedSubtree(m, m', a, x, x, nil);
    SharedSubtree(m, m', b, y, x, nil);
    SharedSubtree(m, m', c, y, y, nil);
  }

  lemma {:induction false} RotateRightLocal<P, E>(t: Tree<P, E>, parent: P, nil: P)
    requires t.Node? && t.left.Node? && Proper(t) && Proper(RotateRight(t))
    ensures SameExcept(Layout(t, parent, nil), Layout(RotateRight(t), parent, nil),
                       {t.p, t.left.p, RootRef(t.left.right, nil)})
  {
    var t' := RotateRight(t);
    assert RotateLeft(t') == t;
    RotateLeftLocal(t', parent, nil);
    SameItems(t, t') by { RotateItems(t); }
  }

  /** How memory changes when `y` is turned above `x`, its parent, to the left: `b` is the
      subtree that changes sides and `up` the object above. */
  ghost predicate TurnedLeft<P, E>(m: map<P, Cell<P, E>>, m': map<P, Cell<P, E>>, x: P, y: P, b: P, up: P, nil: P) {
    && nil !in m && m.Keys == m'.Keys
    && x in m && y in m && (b in m <==> b != nil) && (up in m <==> up != nil)
    && x != y && b != x && b != y && up != x && up != y && (b == nil || b != up)
    && m[x].right == y && m[x].parent == up && m[y].left == b
    && m'[x] == m[x].(right := b, parent := y)
    && m'[y] == m[y].(left := x, parent := up)
    && (b in m ==> m'[b] == m[b].(parent := x))
    && (up in m ==> (m[up].left == x <==> m[up].right != x))
    && (up in m ==> m'[up] == if m[up].left == x then m[up].(left := y) else m[up].(right := y))
    && SameBut(m, m', x, y, b, up)
  }

  lemma {:induction false} RotateLeftCells<P, E>(path: Path<P, E>, t: Tree<P, E>, nil: P)
    requires Proper(Plug(path, t)) && t.Node? && t.right.Node? && nil !in Refs(Plug(path, t))
    ensures Proper(Plug(path, RotateLeft(t)))
    ensures Refs(Plug(path, RotateLeft(t))) == Refs(Plug(path, t))
    ensures path.Top? <==> PathRef(path, nil) == nil
    ensures TurnedLeft(Store(Plug(path, t), nil), Store(Plug(path, RotateLeft(t)), nil),
                       t.p, t.right.p, RootRef(t.right.left, nil), PathRef(path, nil), nil)
  {
    var t' := RotateLeft(t);
    var b := t.right.left;
    RotateItems(t);
    RefocusItems(path, t, t');
    SameItems(Plug(path, t), Plug(path, t'));
    PlugRefs(path, t);
    PlugRefs(path, t');
    RotateLeftLocal(t, PathRef(path, nil), nil);
    if !path.Top? { ParentCell(path, t, nil); }
    ReplaceCells(path, t, t', {t.p, t.right.p, RootRef(b, nil)}, nil);
    ExceptFour(Store(Plug(path, t), nil), Store(Plug(path, t'), nil), t.p, t.right.p, RootRef(b, nil),
        PathRef(path, nil));
    FocusCell(path, t, nil);
    FocusCell(path, t', nil);
    var right := InRight(t.color, t.left, t.p, t.e, path);
    var left' := InLeft(t'.color, t'.p, t'.e, t'.right, path);
    FocusCell(right, t.right, nil);
    FocusCell(left', t'.left, nil);
    if b.Node? {
      FocusCell(InLeft(t.right.color, t.right.p, t.right.e, t.right.right, right), b, nil);
      FocusCell(InRight(t.color, t.left, t.p, t.e, left'), b, nil);
    }
  }

  /** The mirror image: `x` is turned above `y`, its parent, to the right. */
  ghost predicate TurnedRight<P, E>(m: map<P, Cell<P, E>>, m': map<P, Cell<P, E>>, y: P, x: P, b: P, up: P, nil: P) {
    && nil !in m && m.Keys == m'.Keys
    && x in m && y in m && (b in m <==> b != nil) && (up in m <==> up != nil)
    && x != y && b != x && b != y && up != x && up != y && (b == nil || b != up)
    && m[y].left == x && m[y].parent == up && m[x].right == b
    && m'[y] == m[y].(left := b, parent := x)
    && m'[x] == m[x].(right := y, parent := up)
    && (b in m ==> m'[b] == m[b].(parent := y))
    && (up in m ==> (m[up].left == y <==> m[up].right != y))
    && (up in m ==> m'[up] == if m[up].right == y then m[up].(right := x) else m[up].(left := x))
    && SameBut(m, m', y, x, b, up)
  }

  lemma {:induction false} RotateRightCells<P, E>(path: Path<P, E>, t: Tree<P, E>, nil: P)
    requires Proper(Plug(path, t)) && t.Node? && t.left.Node? && nil !in Refs(Plug(path, t))
    ensures Proper(Plug(path, RotateRight(t)))
    ensures Refs(Plug(path, RotateRight(t))) == Refs(Plug(path, t))
    ensures path.Top? <==> PathRef(path, nil) == nil
    ensures TurnedRight(Store(Plug(path, t), nil), Store(Plug(path, RotateRight(t)), nil),
                        t.p, t.left.p, RootRef(t.left.right, nil), PathRef(path, nil), nil)
  {
    var t' := RotateRight(t);
    var b := t.left.right;
    RotateItems(t);
    RefocusItems(path, t, t');
    SameItems(Plug(path, t), Plug(path, t'));
    PlugRefs(path, t);
    PlugRefs(path, t');
    RotateRightLocal(t, PathRef(path, nil), nil);
    if !path.Top? { ParentCell(path, t, nil); }
    ReplaceCells(path, t, t', {t.p, t.left.p, RootRef(b, nil)}, nil);
    ExceptFour(Store(Plug(path, t), nil), Store(Plug(path, t'), nil), t.p, t.left.p, RootRef(b, nil), PathRef(path,
        nil));
    FocusCell(path, t, nil);
    FocusCell(path, t', nil);
    var left := InLeft(t.color, t.p, t.e, t.right, path);
    var right' := InRight(t'.color, t'.left, t'.p, t'.e, path);
    FocusCell(left, t.left, nil);
    FocusCell(right', t'.right, nil);
    if b.Node? {
      FocusCell(InRight(t.left.color, t.left.left, t.left.p, t.left.e, left), b, nil);
      FocusCell(InLeft(t.color, t.p, t.e, t.right, right'), b, nil);
    }
  }

  lemma {:induction false} ReplaceProper<P, E>(path: Path<P, E>, t: Tree<P, E>, t': Tree<P, E>)
    requires Proper(Plug(path, t)) && Proper(t') && Refs(t') !! PathRefs(path)
    ensures Proper(Plug(path, t'))
    ensures Refs(Plug(path, t')) == Refs(t') + PathRefs(path)
    decreases path
  {
    if !path.Top? {
      PlugRefs(path.up, Join(path, t));
      ReplaceProper(path.up, Join(path, t), Join(path, t'));
    }
  }

  /** Painting a node, or storing another element in it, changes its own cell only. */
  lemma {:induction false} PaintCells<P, E>(path: Path<P, E>, t: Tree<P, E>, c: Color, e: E, nil: P)
    requires Proper(Plug(path, t)) && t.Node?
    ensures Proper(Plug(path, t.(color := c, e := e)))
    ensures Refs(Plug(path, t.(color := c, e := e))) == Refs(Plug(path, t)) && t.p in Refs(Plug(path, t))
    ensures var m, m' := Store(Plug(path, t), nil), Store(Plug(path, t.(color := c, e := e)), nil);
            m'[t.p] == m[t.p].(color := c, e := e) && SameExcept(m, m', {t.p})
  {
    var t' := t.(color := c, e := e);
    PlugRefs(path, t);
    assert Proper(t') && Refs(t') == Refs(t);
    ReplaceProper(path, t, t');
    PaintLocal(t, c, e, PathRef(path, nil), nil);
    ReplaceCells(path, t, t', {t.p}, nil);
    FocusCell(path, t, nil);
    FocusCell(path, t', nil);
    if !path.Top? {
      FocusCell(path.up, Join(path, t), nil);
      FocusCell(path.up, Join(path, t'), nil);
    }
  }

  lemma {:induction false} AttachProper<P, E>(path: Path<P, E>, z: P, e: E)
    requires Proper(Plug(path, Leaf)) && z !in Refs(Plug(path, Leaf))
    ensures Proper(Plug(path, Node(Red, Leaf, z, e, Leaf)))
    ensures Refs(Plug(path, Node(Red, Leaf, z, e, Leaf))) == Refs(Plug(path, Leaf)) + {z}
  {
    var t: Tree<P, E>, t' := Leaf, Node(Red, Leaf, z, e, Leaf);
    PlugRefs(path, t);
    assert Refs(t') == {z};
    ReplaceProper(path, t, t');
  }

  /** How memory changes when the new object `z` is hung below `up`. */
  ghost predicate Hung<P, E>(m: map<P, Cell<P, E>>, m': map<P, Cell<P, E>>, z: P, e: E, up: P, onLeft: bool, nil: P) {
    && nil !in m && z !in m && z != nil && m'.Keys == m.Keys + {z} && (up in m <==> up != nil)
    && m'[z] == Cell(Red, nil, nil, up, e)
    && (up in m ==> m'[up] == if onLeft then m[up].(left := z) else m[up].(right := z))
    && SameBut(m, m', up, up, up, up)
  }

  lemma {:induction false} AttachCells<P, E>(path: Path<P, E>, z: P, e: E, nil: P)
    requires Proper(Plug(path, Leaf)) && z !in Refs(Plug(path, Leaf)) && nil !in Refs(Plug(path, Leaf)) && z != nil
    ensures Proper(Plug(path, Node(Red, Leaf, z, e, Leaf)))
    ensures path.Top? <==> PathRef(path, nil) == nil
    ensures Hung(Store(Plug(path, Leaf), nil), Store(Plug(path, Node(Red, Leaf, z, e, Leaf)), nil),
                 z, e, PathRef(path, nil), path.InLeft?, nil)
  {
    AttachProper(path, z, e);
    var up := PathRef(path, nil);
    ReplaceCells(path, Leaf, Node(Red, Leaf, z, e, Leaf), {}, nil);
    assert {} + {up} == {up, up, up} + {up};
    ExceptFour(Store(Plug(path, Leaf), nil), Store(Plug(path, Node(Red, Leaf, z, e, Leaf)), nil), up, up, up, up);
    FocusCell(path, Node(Red, Leaf, z, e, Leaf), nil);
  }

  lemma {:induction false} SpliceProper<P, E>(path: Path<P, E>, t: Tree<P, E>)
    requires Proper(Plug(path, t)) && Cuttable(t)
    ensures Proper(Plug(path, OnlyChild(t)))
    ensures Refs(Plug(path, OnlyChild(t))) == Refs(Plug(path, t)) - {t.p}
  {
    PlugRefs(path, t);
    assert Refs(t) == Refs(OnlyChild(t)) + {t.p};
    ReplaceProper(path, t, OnlyChild(t));
  }

  lemma {:induction false} SpliceLocal<P, E>(t: Tree<P, E>, parent: P, nil: P)
    requires Proper(t) && Cuttable(t)
    ensures SameExcept(Layout(t, parent, nil), Layout(OnlyChild(t), parent, nil), {t.p, RootRef(OnlyChild(t), nil)})
  {
    var x := OnlyChild(t);
    ChildCells(t, parent, nil);
    SharedSubtree(Layout(t, parent, nil), Layout(x, parent, nil), x, t.p, parent, nil);
  }

  /** How memory changes when `y` is cut out and its only child `x` takes its place. */
  ghost predicate CutOutOf<P, E>(m: map<P, Cell<P, E>>, m': map<P, Cell<P, E>>, y: P, x: P, up: P, nil: P) {
    && nil !in m && y in m && m'.Keys == m.Keys - {y} && (x in m <==> x != nil) && (up in m <==> up != nil)
    && x != y && up != y && (x == nil || x != up)
    && m[y].parent == up && x == (if m[y].left != nil then m[y].left else m[y].right)
    && (x in m ==> m'[x] == m[x].(parent := up))
    && (up in m ==> m'[up] == if m[up].left == y then m[up].(left := x) else m[up].(right := x))
    && SameBut(m, m', y, x, x, up)
  }

  lemma {:induction false} SpliceCells<P, E>(path: Path<P, E>, t: Tree<P, E>, nil: P)
    requires Proper(Plug(path, t)) && Cuttable(t) && nil !in Refs(Plug(path, t))
    ensures Proper(Plug(path, OnlyChild(t)))
    ensures path.Top? <==> PathRef(path, nil) == nil
    ensures CutOutOf(Store(Plug(path, t), nil), Store(Plug(path, OnlyChild(t)), nil),
                     t.p, RootRef(OnlyChild(t), nil), PathRef(path, nil), nil)
  {
    var x := OnlyChild(t);
    PlugRefs(path, t);
    SpliceProper(path, t);
    SpliceLocal(t, PathRef(path, nil), nil);
    ReplaceCells(path, t, x, {t.p, RootRef(x, nil)}, nil);
    assert {t.p, RootRef(x, nil)} == {t.p, RootRef(x, nil), RootRef(x, nil)};
    ExceptFour(Store(Plug(path, t), nil), Store(Plug(path, x), nil), t.p, RootRef(x, nil), RootRef(x, nil),
        PathRef(path, nil));
    FocusCell(path, t, nil);
    if !path.Top? { ParentCell(path, t, nil); }
    if x.Node? {
      FocusCell(path, x, nil);
      FocusCell(if t.left.Node? then InLeft(t.color, t.p, t.e, t.right, path)
                else InRight(t.color, t.left, t.p, t.e, path), x, nil);
    }
  }

  // ------------------------------------------------------------------ one object in another's place

  lemma {:induction false} SubstituteProper<P, E>(path: Path<P, E>, t: Tree<P, E>, q: P, e: E)
    requires Proper(Plug(path, t)) && t.Node? && q !in Refs(Plug(path, t))
    ensures Proper(Plug(path, t.(p := q, e := e))) && t.p in Refs(Plug(path, t))
    ensures Refs(Plug(path, t.(p := q, e := e))) == Refs(Plug(path, t)) - {t.p} + {q}
  {
    var t' := t.(p := q, e := e);
    PlugRefs(path, t);
    assert Refs(t') == Refs(t) - {t.p} + {q};
    ReplaceProper(path, t, t');
  }

  lemma {:induction false} SubstituteLocal<P, E>(t: Tree<P, E>, q: P, e: E, parent: P, nil: P)
    requires Proper(t) && t.Node? && q !in Refs(t)
    ensures SameExcept(Layout(t, parent, nil), Layout(t.(p := q, e := e), parent, nil),
                       {t.p, RootRef(t.left, nil), RootRef(t.right, nil)})
  {
    var t' := t.(p := q, e := e);
    ChildCells(t, parent, nil);
    ChildCells(t', parent, nil);
    SharedSubtree(Layout(t, parent, nil), Layout(t', parent, nil), t.left, t.p, q, nil);
    SharedSubtree(Layout(t, parent, nil), Layout(t', parent, nil), t.right, t.p, q, nil);
  }

  /** How memory changes when `q` takes over the links and the colour of `x`, which leaves. */
  ghost predicate TakenOver<P, E>(m: map<P, Cell<P, E>>, m': map<P, Cell<P, E>>, x: P, q: P, e: E, nil: P) {
    && nil !in m && x in m && q !in m && q != nil && m'.Keys == m.Keys - {x} + {q}
    && var l, r, up := m[x].left, m[x].right, m[x].parent;
    && (l in m <==> l != nil) && (r in m <==> r != nil) && (up in m <==> up != nil)
    && l != x && r != x && up != x && (l == nil || (l != r && l != up)) && (r == nil || r != up)
    && m'[q] == m[x].(e := e)
    && (l in m ==> m'[l] == m[l].(parent := q))
    && (r in m ==> m'[r] == m[r].(parent := q))
    && (up in m ==> m'[up] == if m[up].left == x then m[up].(left := q) else m[up].(right := q))
    && SameBut(m, m', x, l, r, up)
  }

  lemma {:induction false} SubstituteCells<P, E>(path: Path<P, E>, t: Tree<P, E>, q: P, e: E, nil: P)
    requires Proper(Plug(path, t)) && t.Node? && nil !in Refs(Plug(path, t))
    requires q !in Refs(Plug(path, t)) && q != nil
    ensures Proper(Plug(path, t.(p := q, e := e)))
    ensures path.Top? <==> PathRef(path, nil) == nil
    ensures TakenOver(Store(Plug(path, t), nil), Store(Plug(path, t.(p := q, e := e)), nil), t.p, q, e, nil)
  {
    var t' := t.(p := q, e := e);
    var l, r := t.left, t.right;
    PlugRefs(path, t);
    SubstituteProper(path, t, q, e);
    SubstituteLocal(t, q, e, PathRef(path, nil), nil);
    if !path.Top? { ParentCell(path, t, nil); }
    ReplaceCells(path, t, t', {t.p, RootRef(l, nil), RootRef(r, nil)}, nil);
    ExceptFour(Store(Plug(path, t), nil), Store(Plug(path, t'), nil), t.p, RootRef(l, nil), RootRef(r, nil),
        PathRef(path, nil));
    FocusCell(path, t, nil);
    FocusCell(path, t', nil);
    if l.Node? {
      FocusCell(InLeft(t.color, t.p, t.e, r, path), l, nil);
      FocusCell(InLeft(t.color, q, e, r, path), l, nil);
    }
    if r.Node? {
      FocusCell(InRight(t.color, l, t.p, t.e, path), r, nil);
      FocusCell(InRight(t.color, l, q, e, path), r, nil);
    }
  }
}
