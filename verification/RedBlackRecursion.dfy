/** Insertion and removal as recursive functions that repair on the way back, one node
    at a time and without a context, and the proof that the loops of the header, which
    climb along parent links, give exactly the same trees. */
module RedBlackRecursion {
  import opened Elements
  import opened RedBlack
  import opened RedBlackDict

  // ---------- Insertion ----------

  predicate IsRedRed(t: Tree) {
    IsRed(t) && (IsRed(t.left) || IsRed(t.right))
  }

  /** A red child of the root that has a red child: either the two children of the root
      share their colour with it, or the middle one of three nodes goes on top. */
  function Mend(t: Tree): Tree {
    if t.Nil? || t.color.Red? then t
    else if IsRedRed(t.left) then
      var p := t.left;
      if IsRed(t.right) then Bin(Blacken(p), t.node, Red, Blacken(t.right))
      else if IsRed(p.left) then Bin(p.left, p.node, Black, Bin(p.right, t.node, Red, t.right))
      else
        var m := p.right;
        Bin(Bin(p.left, p.node, Red, m.left), m.node, Black, Bin(m.right, t.node, Red, t.right))
    else if IsRedRed(t.right) then
      var p := t.right;
      if IsRed(t.left) then Bin(Blacken(t.left), t.node, Red, Blacken(p))
      else if IsRed(p.right) then Bin(Bin(t.left, t.node, Red, p.left), p.node, Black, p.right)
      else
        var m := p.left;
        Bin(Bin(t.left, t.node, Red, m.left), m.node, Black, Bin(m.right, p.node, Red, p.right))
    else t
  }

  function Grow(t: Tree, n: Node): Tree {
    if t.Nil? then Bin(Nil, n, Red, Nil)
    else if n.key < t.node.key then Mend(t.(left := Grow(t.left, n)))
    else if n.key > t.node.key then Mend(t.(right := Grow(t.right, n)))
    else t
  }

  /** Mending all the way up from a place in a tree. */
  function MendUp(c: Ctx, f: Tree): Tree
    decreases c
  {
    if c.Top? then f else MendUp(c.up, Mend(Fill(c, f)))
  }

  lemma {:induction false} GrowIsMendUp(c: Ctx, t: Tree, n: Node)
    ensures var (d, f) := Search(c, t, n.key); f.Nil? ==> MendUp(d, Bin(Nil, n, Red, Nil)) == MendUp(c, Grow(t, n))
    decreases t
  {
    if t.Bin? && n.key < t.node.key {
      GrowIsMendUp(InLeft(c, t.node, t.color, t.right), t.left, n);
    } else if t.Bin? && n.key > t.node.key {
      GrowIsMendUp(InRight(c, t.left, t.node, t.color), t.right, n);
    }
  }

  lemma {:induction false} NothingToMend(c: Ctx, f: Tree)
    requires ValidRB(Plug(c, f))
    ensures MendUp(c, f) == Plug(c, f)
    decreases c
  {
    if !c.Top? {
      PlugValid(c.up, Fill(c, f));
      NothingToMend(c.up, Fill(c, f));
    }
  }

  /** One iteration of the loop is one mending at the grandparent. */
  lemma StepIsMend(c: Ctx, f: Tree)
    requires InsHole(c, f) && HoleUnderRed(c)
    ensures var (d, g) := InsStep(c, f); MendUp(c, f) == MendUp(d, g)
  {
    var (d, g) := InsStep(c, f);
    var up := c.up;
    assert Mend(Fill(c, f)) == Fill(c, f);
    var m := Mend(Fill(up, Fill(c, f)));
    if IsRed(Sibling(up)) {
      assert m == g && d == up.up;
    } else {
      assert m == Fill(d, g) && d.up == up.up;
      assert Mend(m) == m;
    }
  }

  lemma {:induction false} InsFixIsMendUp(c: Ctx, f: Tree)
    requires InsHole(c, f)
    ensures InsFix(c, f) == Blacken(MendUp(c, f))
    decreases Depth(c)
  {
    if HoleUnderRed(c) {
      InsStepSafe(c, f);
      StepIsMend(c, f);
      var (d, g) := InsStep(c, f);
      InsFixIsMendUp(d, g);
    } else if !c.Top? {
      PlugValid(c, f);
      NothingToMend(c, f);
    }
  }

  /** RB_INSERT gives the tree of the recursion. */
  lemma InsertIsGrow(t: Tree, n: Node)
    requires ValidRB(t) && Find(t, n.key) == null
    ensures Insert(t, n) == Blacken(Grow(t, n))
  {
    var (c, f) := Search(Top, t, n.key);
    LeafFits(t, n);
    InsFixIsMendUp(c, Bin(Nil, n, Red, Nil));
    GrowIsMendUp(Top, t, n);
  }

  // ---------- Removal ----------

  /** A subtree after a removal, and whether it is one black node short. */
  datatype Less = Less(t: Tree, short: bool)

  /** A red root makes up for a shortage. */
  function Settle(t: Tree, short: bool): Less {
    if short && IsRed(t) then Less(Blacken(t), false) else Less(t, short)
  }

  /** A short left subtree beside a black sibling. */
  function LeanRight(l: Tree, n: Node, k: Color, s: Tree): Less
    requires s.Bin?
  {
    if IsRed(s.right) then
      Less(Bin(Bin(l, n, Black, s.left), s.node, k, Blacken(s.right)), false)
    else if IsRed(s.left) then
      var m := s.left;
      Less(Bin(Bin(l, n, Black, m.left), m.node, k, Bin(m.right, s.node, Black, s.right)), false)
    else Settle(Bin(l, n, k, s.(color := Red)), true)
  }

  function LeanLeft(s: Tree, n: Node, k: Color, r: Tree): Less
    requires s.Bin?
  {
    if IsRed(s.left) then
      Less(Bin(Blacken(s.left), s.node, k, Bin(s.right, n, Black, r)), false)
    else if IsRed(s.right) then
      var m := s.right;
      Less(Bin(Bin(s.left, s.node, Black, m.left), m.node, k, Bin(m.right, n, Black, r)), false)
    else Settle(Bin(s.(color := Red), n, k, r), true)
  }

  /** The node above a left subtree that may be short. A missing sibling, which no
      valid tree has, leaves the shortage. */
  function AfterLeft(d: Less, n: Node, k: Color, s: Tree): Less {
    if !d.short || s.Nil? then Less(Bin(d.t, n, k, s), d.short)
    else if IsRed(s) && s.left.Bin? then
      var i := LeanRight(d.t, n, Red, s.left);
      Less(Bin(i.t, s.node, Black, s.right), i.short)
    else LeanRight(d.t, n, k, s)
  }

  function AfterRight(s: Tree, n: Node, k: Color, d: Less): Less {
    if !d.short || s.Nil? then Less(Bin(s, n, k, d.t), d.short)
    else if IsRed(s) && s.right.Bin? then
      var i := LeanLeft(s.right, n, Red, d.t);
      Less(Bin(s.left, s.node, Black, i.t), i.short)
    else LeanLeft(s, n, k, d.t)
  }

  /** The leftmost node, and the tree without it. */
  function DropMin(t: Tree): (Node, Less)
    requires t.Bin?
  {
    if t.left.Nil? then (t.node, Settle(t.right, t.color.Black?))
    else
      var (m, d) := DropMin(t.left);
      (m, AfterLeft(d, t.node, t.color, t.right))
  }

  /** The tree without its root: the successor takes its place and its colour. */
  function DropRoot(t: Tree): Less
    requires t.Bin?
  {
    if t.left.Nil? then Settle(t.right, t.color.Black?)
    else if t.right.Nil? then Settle(t.left, t.color.Black?)
    else
      var (m, d) := DropMin(t.right);
      AfterRight(t.left, m, t.color, d)
  }

  function Shrink(t: Tree, k: int): Less {
    if t.Nil? then Less(Nil, false)
    else if k < t.node.key then AfterLeft(Shrink(t.left, k), t.node, t.color, t.right)
    else if k > t.node.key then AfterRight(t.left, t.node, t.color, Shrink(t.right, k))
    else DropRoot(t)
  }

  /** Repairing all the way up from a place in a tree. */
  function LessUp(c: Ctx, d: Less): Less
    decreases c
  {
    match c
    case Top => d
    case InLeft(up, n, k, s) => LessUp(up, AfterLeft(d, n, k, s))
    case InRight(up, s, n, k) => LessUp(up, AfterRight(s, n, k, d))
  }

  lemma {:induction false} NothingShort(c: Ctx, f: Tree)
    ensures LessUp(c, Less(f, false)) == Less(Plug(c, f), false)
    decreases c
  {
    if !c.Top? { NothingShort(c.up, Fill(c, f)); }
  }

  /** The case that ends the repair. */
  lemma DoneIsAfter(c: Ctx, f: Tree)
    requires RemHole(c, f) && !IsRed(f) && !c.Top?
    requires var s := Sibling(RemLower(c)); s.Bin? && (IsRed(s.left) || IsRed(s.right))
    ensures LessUp(c, Less(f, true)) == Less(Plug(RemLower(c).up, RemDone(RemLower(c), f)), false)
  {
    RemLowerSafe(c, f);
    var l := RemLower(c);
    var x := RemDone(l, f);
    NothingShort(c.up, if l == c then x else Fill(l.up, x));
  }

  /** The case that moves the shortage up. */
  lemma ShiftIsAfter(c: Ctx, f: Tree)
    requires RemHole(c, f) && !IsRed(f) && !c.Top?
    requires var s := Sibling(RemLower(c)); s.Bin? && !IsRed(s.left) && !IsRed(s.right)
    ensures var (d, g) := RemStep(c, f); LessUp(c, Less(f, true)) == LessUp(d, Settle(g, true))
  {
    RemLowerSafe(c, f);
  }

  lemma {:induction false} RemFixIsLessUp(c: Ctx, f: Tree)
    requires RemHole(c, f)
    ensures RemFix(c, f) == LessUp(c, Settle(f, true)).t
    decreases RemMeasure(c, f)
  {
    if IsRed(f) {
      NothingShort(c, Blacken(f));
    } else if !c.Top? {
      RemLowerSafe(c, f);
      RemStepSafe(c, f);
      var l := RemLower(c);
      var (d, g) := RemStep(c, f);
      if IsRed(Sibling(l).left) || IsRed(Sibling(l).right) {
        RemDoneSafe(l, f);
        DoneIsAfter(c, f);
      } else {
        ShiftIsAfter(c, f);
        RemFixIsLessUp(d, g);
      }
    }
  }

  lemma CutFixIsLessUp(c: Ctx, f: Tree, k: Color)
    requires k.Black? ==> RemHole(c, f)
    ensures CutFix(c, f, k) == LessUp(c, Settle(f, k.Black?)).t
  {
    if k.Black? { RemFixIsLessUp(c, f); } else { NothingShort(c, f); }
  }

  lemma {:induction false} LeftmostIsDropMin(i: Ctx, outer: Ctx, t: Tree)
    requires t.Bin?
    ensures var (j, s) := Leftmost(i, t);
            && DropMin(t).0 == s.node
            && LessUp(Over(j, outer), Settle(s.right, s.color.Black?)) == LessUp(Over(i, outer), DropMin(t).1)
    decreases t
  {
    if t.left.Bin? { LeftmostIsDropMin(InLeft(i, t.node, t.color, t.right), outer, t.left); }
  }

  lemma UnlinkIsDropRoot(c: Ctx, t: Tree)
    requires t.Bin?
    ensures var (d, f, k) := Unlink(c, t); LessUp(d, Settle(f, k.Black?)) == LessUp(c, DropRoot(t))
  {
    if t.left.Bin? && t.right.Bin? {
      var (i, s) := Leftmost(Top, t.right);
      LeftmostIsDropMin(Top, InRight(c, t.left, s.node, t.color), t.right);
    }
  }

  lemma {:induction false} SearchIsShrink(c: Ctx, t: Tree, k: int)
    ensures var (d, f) := Search(c, t, k); f.Bin? ==> LessUp(d, DropRoot(f)) == LessUp(c, Shrink(t, k))
    decreases t
  {
    if t.Bin? && k < t.node.key {
      SearchIsShrink(InLeft(c, t.node, t.color, t.right), t.left, k);
    } else if t.Bin? && k > t.node.key {
      SearchIsShrink(InRight(c, t.left, t.node, t.color), t.right, k);
    }
  }

  /** RB_REMOVE gives the tree of the recursion. */
  lemma RemoveIsShrink(t: Tree, k: int)
    requires ValidRB(t) && Find(t, k) != null
    ensures Remove(t, k) == Shrink(t, k).t
  {
    var (c, f) := Search(Top, t, k);
    UnlinkSafe(c, f);
    var (d, g, color) := Unlink(c, f);
    CutFixIsLessUp(d, g, color);
    UnlinkIsDropRoot(c, f);
    SearchIsShrink(Top, t, k);
  }
}
