/** How high a red-black tree can be. */
module TreeHeight {
  import opened RedBlack

  function Height<P, E>(t: Tree<P, E>): nat {
    if t.Leaf? then 0
    else 1 + if Height(t.left) < Height(t.right) then Height(t.right) else Height(t.left)
  }

  function Pow2(n: nat): nat {
    if n == 0 then 1 else 2 * Pow2(n - 1)
  }

  lemma Twice(x: nat, y: nat)
    ensures (2 * x) * y == 2 * (x * y)
  {
  }

  lemma {:induction false} Pow2Sum(a: nat, b: nat)
    ensures Pow2(a + b) == Pow2(a) * Pow2(b)
  {
    if a > 0 {
      Pow2Sum(a - 1, b);
      Twice(Pow2(a - 1), Pow2(b));
    }
  }

  lemma {:induction false} Pow2Monotone(a: nat, b: nat)
    requires a <= b
    ensures Pow2(a) <= Pow2(b)
    decreases b
  {
    if a < b { Pow2Monotone(a, b - 1); }
  }

  lemma {:induction false} HeightAtMostTwiceBlack<P, E>(t: Tree<P, E>)
    requires Balanced(t) && NoRedRed(t)
    ensures Height(t) <= 2 * BlackHeight(t) + (if RootColor(t) == Red then 1 else 0)
  {
    if t.Node? {
      HeightAtMostTwiceBlack(t.left);
      HeightAtMostTwiceBlack(t.right);
    }
  }

  lemma {:induction false} SizeAtLeastBlack<P, E>(t: Tree<P, E>)
    requires Balanced(t)
    ensures Pow2(BlackHeight(t)) <= |Items(t)| + 1
  {
    if t.Node? {
      SizeAtLeastBlack(t.left);
      SizeAtLeastBlack(t.right);
    }
  }

  lemma SquareMonotone(a: nat, b: nat)
    requires a <= b
    ensures a * a <= b * b
  {
  }

  /** A valid tree of n nodes has height at most 2 log2 (n + 1). */
  lemma HeightBound<P, E>(t: Tree<P, E>)
    requires Valid(t)
    ensures Pow2(Height(t)) <= (|Items(t)| + 1) * (|Items(t)| + 1)
  {
    hide Items, Height, BlackHeight, Pow2;
    var h, n := BlackHeight(t), |Items(t)| + 1;
    HeightAtMostTwiceBlack(t);
    SizeAtLeastBlack(t);
    Pow2Monotone(Height(t), h + h);
    Pow2Sum(h, h);
    SquareMonotone(Pow2(h), n);
  }
}
