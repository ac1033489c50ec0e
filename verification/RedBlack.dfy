/** Red-black trees as values: what the two repair loops of the header do to a tree
    that is cut open at one place, and the proofs about it. The class in
    RedBlackTree.dfy is proved to compute these functions on the heap. */
module RedBlack {
  import opened Elements

  datatype Tree = Nil | Bin(left: Tree, node: Node, color: Color, right: Tree)

  /** A tree with one subtree missing, read from the hole upwards: the hole is the
      left (`InLeft`) or the right (`InRight`) child of `node`. */
  datatype Ctx =
    | Top
    | InLeft(up: Ctx, node: Node, color: Color, right: Tree)
    | InRight(up: Ctx, left: Tree, node: Node, color: Color)

  function Plug(c: Ctx, f: Tree): (t: Tree)
    ensures f.Bin? ==> t.Bin?
    decreases c
  {
    match c
    case Top => f
    case InLeft(up, n, k, r) => Plug(up, Bin(f, n, k, r))
    case InRight(up, l, n, k) => Plug(up, Bin(l, n, k, f))
  }

  /** The hole of `c` filled with `f`, one level only. */
  function Fill(c: Ctx, f: Tree): Tree
    requires !c.Top?
  {
    if c.InLeft? then Bin(f, c.node, c.color, c.right) else Bin(c.left, c.node, c.color, f)
  }

  /** The context `c` placed inside the context `outer`. */
  function Over(c: Ctx, outer: Ctx): Ctx {
    match c
    case Top => outer
    case InLeft(up, n, k, r) => InLeft(Over(up, outer), n, k, r)
    case InRight(up, l, n, k) => InRight(Over(up, outer), l, n, k)
  }

  lemma {:induction false} PlugOver(c: Ctx, outer: Ctx, f: Tree)
    ensures Plug(Over(c, outer), f) == Plug(outer, Plug(c, f))
    decreases c
  {
    match c
    case Top =>
    case InLeft(up, n, k, r) => PlugOver(up, outer, Bin(f, n, k, r));
    case InRight(up, l, n, k) => PlugOver(up, outer, Bin(l, n, k, f));
  }

  function Depth(c: Ctx): nat {
    if c.Top? then 0 else 1 + Depth(c.up)
  }

  // ---------- In-order contents ----------

  function InOrder(t: Tree): seq<Node> {
    if t.Nil? then [] else InOrder(t.left) + [t.node] + InOrder(t.right)
  }

  function Before(c: Ctx): seq<Node> {
    match c
    case Top => []
    case InLeft(up, _, _, _) => Before(up)
    case InRight(up, l, n, _) => Before(up) + InOrder(l) + [n]
  }

  function After(c: Ctx): seq<Node> {
    match c
    case Top => []
    case InLeft(up, n, _, r) => [n] + InOrder(r) + After(up)
    case InRight(up, _, _, _) => After(up)
  }

  lemma {:induction false} PlugOrder(c: Ctx, f: Tree)
    ensures InOrder(Plug(c, f)) == Before(c) + InOrder(f) + After(c)
    decreases c
  {
    match c
    case Top =>
    case InLeft(up, n, k, r) => PlugOrder(up, Bin(f, n, k, r));
    case InRight(up, l, n, k) => PlugOrder(up, Bin(l, n, k, f));
  }

  /** Same contents at the hole, same contents of the whole. */
  lemma PlugSameOrder(c: Ctx, f: Tree, g: Tree)
    requires InOrder(f) == InOrder(g)
    ensures InOrder(Plug(c, f)) == InOrder(Plug(c, g))
  {
    PlugOrder(c, f);
    PlugOrder(c, g);
  }

  // ---------- The red-black conditions ----------

  predicate IsRed(t: Tree) {
    t.Bin? && t.color.Red?
  }

  predicate HoleUnderRed(c: Ctx) {
    !c.Top? && c.color.Red?
  }

  function Weight(k: Color): nat {
    if k.Black? then 1 else 0
  }

  /** The number of black nodes on the leftmost path. */
  function BlackHeight(t: Tree): nat {
    if t.Nil? then 0 else BlackHeight(t.left) + Weight(t.color)
  }

  /** No red node has a red child and all paths below carry equally many black
      nodes. The root may have either colour. */
  predicate Balanced(t: Tree) {
    t.Bin? ==>
      && Balanced(t.left) && Balanced(t.right)
      && BlackHeight(t.left) == BlackHeight(t.right)
      && (t.color.Red? ==> !IsRed(t.left) && !IsRed(t.right))
  }

  predicate ValidRB(t: Tree) {
    Balanced(t) && !IsRed(t)
  }

  /** The way from the root of `t` to a leaf: `true` is a step to the left. */
  predicate IsPath(t: Tree, path: seq<bool>)
    decreases t
  {
    if t.Nil? then path == []
    else path != [] && IsPath(if path[0] then t.left else t.right, path[1..])
  }

  function BlackNodes(t: Tree, path: seq<bool>): nat
    requires IsPath(t, path)
    decreases t
  {
    if t.Nil? then 0
    else Weight(t.color) + BlackNodes(if path[0] then t.left else t.right, path[1..])
  }

  predicate RedHasBlackChildren(t: Tree) {
    t.Bin? ==>
      && (t.color.Red? ==> !IsRed(t.left) && !IsRed(t.right))
      && RedHasBlackChildren(t.left) && RedHasBlackChildren(t.right)
  }

  ghost predicate AllPathsEqual(t: Tree) {
    forall p, q | IsPath(t, p) && IsPath(t, q) :: BlackNodes(t, p) == BlackNodes(t, q)
  }

  /** `Balanced` says what the header does: a red node has black children, and every
      path from the root to a leaf has the same number of black nodes. */
  lemma {:induction false} BalancedByPaths(t: Tree)
    ensures Balanced(t) <==> RedHasBlackChildren(t) && AllPathsEqual(t)
  {
    if Balanced(t) {
      BalancedPaths(t);
    } else if RedHasBlackChildren(t) && AllPathsEqual(t) {
      SubPathsEqual(t);
      BalancedByPaths(t.left);
      BalancedByPaths(t.right);
      var p := LeftPath(t.left);
      var q := LeftPath(t.right);
      assert false;
    }
  }

  lemma {:induction false} BalancedPaths(t: Tree)
    requires Balanced(t)
    ensures RedHasBlackChildren(t)
    ensures forall p | IsPath(t, p) :: BlackNodes(t, p) == BlackHeight(t)
  {
    if t.Bin? {
      BalancedPaths(t.left);
      BalancedPaths(t.right);
    }
  }

  lemma {:induction false} LeftPath(t: Tree) returns (p: seq<bool>)
    ensures IsPath(t, p) && BlackNodes(t, p) == BlackHeight(t)
  {
    p := [];
    if t.Bin? {
      var q := LeftPath(t.left);
      p := [true] + q;
      assert p[1..] == q;
    }
  }

  lemma SubPathsEqual(t: Tree)
    requires t.Bin? && AllPathsEqual(t)
    ensures AllPathsEqual(t.left) && AllPathsEqual(t.right)
    ensures forall p, q | IsPath(t.left, p) && IsPath(t.right, q) :: BlackNodes(t.left, p) == BlackNodes(t.right, q)
  {
    forall p | IsPath(t.left, p)
      ensures IsPath(t, [true] + p) && BlackNodes(t, [true] + p) == Weight(t.color) + BlackNodes(t.left, p)
    {
      assert ([true] + p)[1..] == p;
    }
    forall p | IsPath(t.right, p)
      ensures IsPath(t, [false] + p) && BlackNodes(t, [false] + p) == Weight(t.color) + BlackNodes(t.right, p)
    {
      assert ([false] + p)[1..] == p;
    }
  }

  /** Everything around the hole is as `ValidRB` wants it, provided that the hole is
      filled with a subtree of black height `h`. A red node above the hole is
      tolerated: whether the filling may be red is not said here. */
  predicate Fits(c: Ctx, h: nat) {
    match c
    case Top => true
    case InLeft(up, _, k, sib) => FitsFrame(up, k, sib, h) && Fits(up, h + Weight(k))
    case InRight(up, sib, _, k) => FitsFrame(up, k, sib, h) && Fits(up, h + Weight(k))
  }

  predicate FitsFrame(up: Ctx, k: Color, sib: Tree, h: nat) {
    && Balanced(sib)
    && BlackHeight(sib) == h
    && (k.Red? ==> !up.Top? && !HoleUnderRed(up) && !IsRed(sib))
  }

  /** A tree is valid exactly when, cut anywhere, the piece is balanced, fits its
      context and is red only under a black node. */
  lemma {:induction false} PlugValid(c: Ctx, f: Tree)
    ensures ValidRB(Plug(c, f)) <==>
            Balanced(f) && Fits(c, BlackHeight(f)) && (IsRed(f) ==> !c.Top? && !HoleUnderRed(c))
    decreases c
  {
    match c
    case Top =>
    case InLeft(up, n, k, r) => PlugValid(up, Bin(f, n, k, r));
    case InRight(up, l, n, k) => PlugValid(up, Bin(l, n, k, f));
  }

  function Blacken(t: Tree): (r: Tree) {
    if t.Nil? then Nil else t.(color := Black)
  }

  // ---------- Rotations ----------

  function RotatedLeft(t: Tree): Tree
    requires t.Bin? && t.right.Bin?
  {
    var y := t.right;
    Bin(Bin(t.left, t.node, t.color, y.left), y.node, y.color, y.right)
  }

  function RotatedRight(t: Tree): Tree
    requires t.Bin? && t.left.Bin?
  {
    var x := t.left;
    Bin(x.left, x.node, x.color, Bin(x.right, t.node, t.color, t.right))
  }

  /** Either rotation keeps the contents in order, and the other one undoes it. */
  lemma RotateLeftOrder(t: Tree)
    requires t.Bin? && t.right.Bin?
    ensures InOrder(RotatedLeft(t)) == InOrder(t)
    ensures RotatedRight(RotatedLeft(t)) == t
  {
    var y := t.right;
    SplitThree(InOrder(t.left), t.node, InOrder(y.left), y.node, InOrder(y.right));
    assert RotatedLeft(t).left == Bin(t.left, t.node, t.color, y.left);
  }

  lemma RotateRightOrder(t: Tree)
    requires t.Bin? && t.left.Bin?
    ensures InOrder(RotatedRight(t)) == InOrder(t)
    ensures RotatedLeft(RotatedRight(t)) == t
  {
    RotateLeftOrder(RotatedRight(t));
  }

  // ---------- Insertion ----------

  /** The loop invariant of the insertion repair: the only fault is that the red
      subtree at the hole may sit under a red node, or be the root. */
  predicate InsHole(c: Ctx, f: Tree) {
    IsRed(f) && Balanced(f) && Fits(c, BlackHeight(f))
  }

  /** One iteration of the insertion repair: the new hole and what is in it. */
  function InsStep(c: Ctx, f: Tree): (r: (Ctx, Tree))
    requires InsHole(c, f) && HoleUnderRed(c)
  {
    match c
    case InLeft(up, p, _, sib) => (
      match up
      case InLeft(up2, g, _, unc) =>
        if IsRed(unc) then (up2, Bin(Bin(f, p, Black, sib), g, Red, Blacken(unc)))
        else (InLeft(up2, p, Black, Bin(sib, g, Red, unc)), f)
      case InRight(up2, unc, g, _) =>
        if IsRed(unc) then (up2, Bin(Blacken(unc), g, Red, Bin(f, p, Black, sib)))
        else (InRight(up2, Bin(unc, g, Red, f.left), f.node, Black), Bin(f.right, p, Red, sib)))
    case InRight(up, sib, p, _) => (
      match up
      case InLeft(up2, g, _, unc) =>
        if IsRed(unc) then (up2, Bin(Bin(sib, p, Black, f), g, Red, Blacken(unc)))
        else (InLeft(up2, f.node, Black, Bin(f.right, g, Red, unc)), Bin(sib, p, Red, f.left))
      case InRight(up2, unc, g, _) =>
        if IsRed(unc) then (up2, Bin(Blacken(unc), g, Red, Bin(sib, p, Black, f)))
        else (InRight(up2, Bin(unc, g, Red, sib), p, Black), f))
  }

  lemma InsStepSafe(c: Ctx, f: Tree)
    requires InsHole(c, f) && HoleUnderRed(c)
    ensures var (d, g) := InsStep(c, f); InsHole(d, g) && Depth(d) < Depth(c)
  {
    var (d, g) := InsStep(c, f);
    var h, up := BlackHeight(f), c.up;
    assert Fits(up, h) && Fits(up.up, h + 1);
    var uncle := if up.InLeft? then up.right else up.left;
    assert Balanced(uncle) && BlackHeight(uncle) == h;
    assert Balanced(f.left) && Balanced(f.right) && BlackHeight(f.left) == BlackHeight(f.right) == h;
    if IsRed(uncle) {
      assert Balanced(Blacken(uncle)) && BlackHeight(Blacken(uncle)) == h + 1;
      assert Balanced(g.left) && BlackHeight(g.left) == h + 1;
      assert Balanced(g.right) && BlackHeight(g.right) == h + 1;
    } else {
      assert Balanced(g.left) && Balanced(g.right);
      var sib := if d.InLeft? then d.right else d.left;
      assert Balanced(sib.left) && Balanced(sib.right);
      assert Balanced(sib) && BlackHeight(sib) == h;
    }
  }

  lemma InsStepOrder(c: Ctx, f: Tree)
    requires InsHole(c, f) && HoleUnderRed(c)
    ensures var (d, g) := InsStep(c, f); InOrder(Plug(d, g)) == InOrder(Plug(c, f))
  {
    var (d, g) := InsStep(c, f);
    var up := c.up;
    var was := Fill(up, Fill(c, f));
    if up.InLeft? {
      if IsRed(up.right) {
        PlugSameOrder(up.up, was, g);
      } else {
        var r := if c.InLeft? then was else was.(left := RotatedLeft(was.left));
        if c.InRight? { RotateLeftOrder(was.left); }
        RotateRightOrder(r);
        PlugSameOrder(up.up, was, Fill(d, g));
      }
    } else if IsRed(up.left) {
      PlugSameOrder(up.up, was, g);
    } else {
      var r := if c.InRight? then was else was.(right := RotatedRight(was.right));
      if c.InLeft? { RotateRightOrder(was.right); }
      RotateLeftOrder(r);
      PlugSameOrder(up.up, was, Fill(d, g));
    }
  }

  /** The whole insertion repair, ending with the root painted black. */
  function InsFix(c: Ctx, f: Tree): Tree
    requires InsHole(c, f)
    decreases Depth(c)
  {
    if HoleUnderRed(c) then
      InsStepSafe(c, f);
      var (d, g) := InsStep(c, f);
      InsFix(d, g)
    else Blacken(Plug(c, f))
  }

  lemma {:induction false} InsFixCorrect(c: Ctx, f: Tree)
    requires InsHole(c, f)
    ensures ValidRB(InsFix(c, f))
    ensures InOrder(InsFix(c, f)) == InOrder(Plug(c, f))
    decreases Depth(c)
  {
    if HoleUnderRed(c) {
      InsStepSafe(c, f);
      InsStepOrder(c, f);
      var (d, g) := InsStep(c, f);
      InsFixCorrect(d, g);
    } else if c.Top? {
    } else {
      PlugValid(c, f);
    }
  }

  // ---------- Removal ----------

  /** The loop invariant of the removal repair: every path through the hole is one
      black node short, and nothing else is wrong around or below it, except that a
      red node at the hole may have red children. */
  predicate RemHole(c: Ctx, f: Tree) {
    Balanced(Blacken(f)) && Fits(c, BlackHeight(f) + 1)
  }

  function Sibling(c: Ctx): Tree
    requires !c.Top?
  {
    if c.InLeft? then c.right else c.left
  }

  /** First part of an iteration: a red sibling is rotated up, which pushes the hole
      one level down and gives it a black sibling. */
  function RemLower(c: Ctx): Ctx
    requires !c.Top?
  {
    match c
    case InLeft(up, p, _, s) =>
      if IsRed(s) then InLeft(InLeft(up, s.node, Black, s.right), p, Red, s.left) else c
    case InRight(up, s, p, _) =>
      if IsRed(s) then InRight(InRight(up, s.left, s.node, Black), s.right, p, Red) else c
  }

  /** The sibling is never missing, before and after `RemLower`. */
  lemma RemLowerSafe(c: Ctx, f: Tree)
    requires RemHole(c, f) && !c.Top?
    ensures Sibling(c).Bin?
    ensures var d := RemLower(c);
            !d.Top? && RemHole(d, f) && Sibling(d).Bin? && !IsRed(Sibling(d))
  {
  }

  lemma RemLowerOrder(c: Ctx, f: Tree)
    requires !c.Top?
    ensures InOrder(Plug(RemLower(c), f)) == InOrder(Plug(c, f))
  {
    var d := RemLower(c);
    if d != c {
      var was := Fill(c, f);
      if c.InLeft? { RotateLeftOrder(was); } else { RotateRightOrder(was); }
      PlugSameOrder(c.up, was, Fill(d.up, Fill(d, f)));
    }
  }

  /** At most two rotations, with repainting, that give the short side its missing
      black node: the new subtree in place of the parent's. */
  function RemDone(c: Ctx, f: Tree): Tree
    requires !c.Top? && Sibling(c).Bin? && (IsRed(Sibling(c).left) || IsRed(Sibling(c).right))
  {
    match c
    case InLeft(up, p, k, s) =>
      var t := if IsRed(s.right) then s else RotatedRight(s.(color := Red, left := Blacken(s.left)));
      Bin(Bin(f, p, Black, t.left), t.node, k, Blacken(t.right))
    case InRight(up, s, p, k) =>
      var t := if IsRed(s.left) then s else RotatedLeft(s.(color := Red, right := Blacken(s.right)));
      Bin(Blacken(t.left), t.node, k, Bin(t.right, p, Black, f))
  }

  lemma RemDoneSafe(c: Ctx, f: Tree)
    requires RemHole(c, f) && !IsRed(f)
    requires !c.Top? && Sibling(c).Bin? && !IsRed(Sibling(c))
    requires IsRed(Sibling(c).left) || IsRed(Sibling(c).right)
    ensures ValidRB(Plug(c.up, RemDone(c, f)))
  {
    var t, s, h := RemDone(c, f), Sibling(c), BlackHeight(f);
    assert Balanced(s.left) && Balanced(s.right) && BlackHeight(s.left) == BlackHeight(s.right) == h;
    assert Balanced(t.left) && BlackHeight(t.left) == h + 1;
    assert Balanced(t.right) && BlackHeight(t.right) == h + 1;
    PlugValid(c.up, t);
  }

  lemma RemDoneOrder(c: Ctx, f: Tree)
    requires !c.Top? && Sibling(c).Bin?
    requires IsRed(Sibling(c).left) || IsRed(Sibling(c).right)
    ensures InOrder(Plug(c.up, RemDone(c, f))) == InOrder(Plug(c, f))
  {
    var t, s := RemDone(c, f), Sibling(c);
    if c.InLeft? {
      var u := s.(color := Red, left := Blacken(s.left));
      assert InOrder(u) == InOrder(s);
      if !IsRed(s.right) { RotateRightOrder(u); }
      var w := Bin(f, c.node, c.color, if IsRed(s.right) then s else RotatedRight(u));
      assert InOrder(w) == InOrder(Fill(c, f));
      RotateLeftOrder(w);
      assert t.right == Blacken(RotatedLeft(w).right);
    } else {
      var u := s.(color := Red, right := Blacken(s.right));
      assert InOrder(u) == InOrder(s);
      if !IsRed(s.left) { RotateLeftOrder(u); }
      var w := Bin(if IsRed(s.left) then s else RotatedLeft(u), c.node, c.color, f);
      assert InOrder(w) == InOrder(Fill(c, f));
      RotateRightOrder(w);
      assert t.left == Blacken(RotatedRight(w).left);
    }
    PlugSameOrder(c.up, t, Fill(c, f));
  }

  /** Second part: the shortage moves up to the parent, or the rotations end it and
      the hole becomes the whole tree. */
  function RemShift(c: Ctx, f: Tree): (Ctx, Tree)
    requires !c.Top? && Sibling(c).Bin?
  {
    var s := Sibling(c);
    if IsRed(s.left) || IsRed(s.right) then (Top, Plug(c.up, RemDone(c, f)))
    else if c.InLeft? then (c.up, Bin(f, c.node, c.color, s.(color := Red)))
    else (c.up, Bin(s.(color := Red), c.node, c.color, f))
  }

  function RemMeasure(c: Ctx, f: Tree): nat {
    if IsRed(f) then 0 else Depth(c)
  }

  /** One iteration of the removal repair. */
  function RemStep(c: Ctx, f: Tree): (Ctx, Tree)
    requires RemHole(c, f) && !c.Top?
  {
    RemLowerSafe(c, f);
    RemShift(RemLower(c), f)
  }

  lemma RemStepSafe(c: Ctx, f: Tree)
    requires RemHole(c, f) && !IsRed(f) && !c.Top?
    ensures var (d, g) := RemStep(c, f); RemHole(d, g) && RemMeasure(d, g) < RemMeasure(c, f)
  {
    RemLowerSafe(c, f);
    var l := RemLower(c);
    var s := Sibling(l);
    if IsRed(s.left) || IsRed(s.right) {
      RemDoneSafe(l, f);
    } else {
      var (d, g) := RemShift(l, f);
      assert Balanced(g.left) && Balanced(g.right);
    }
  }

  lemma RemStepOrder(c: Ctx, f: Tree)
    requires RemHole(c, f) && !c.Top?
    ensures var (d, g) := RemStep(c, f); InOrder(Plug(d, g)) == InOrder(Plug(c, f))
  {
    RemLowerSafe(c, f);
    RemLowerOrder(c, f);
    var l := RemLower(c);
    var s := Sibling(l);
    if IsRed(s.left) || IsRed(s.right) {
      RemDoneOrder(l, f);
    } else {
      var (d, g) := RemShift(l, f);
      PlugSameOrder(d, Fill(l, f), g);
    }
  }

  /** The whole removal repair, ending with the node at the hole painted black. */
  function RemFix(c: Ctx, f: Tree): Tree
    requires RemHole(c, f)
    decreases RemMeasure(c, f)
  {
    if IsRed(f) || c.Top? then Plug(c, Blacken(f))
    else
      RemStepSafe(c, f);
      var (d, g) := RemStep(c, f);
      RemFix(d, g)
  }

  lemma {:induction false} RemFixCorrect(c: Ctx, f: Tree)
    requires RemHole(c, f)
    ensures ValidRB(RemFix(c, f))
    ensures InOrder(RemFix(c, f)) == InOrder(Plug(c, f))
    decreases RemMeasure(c, f)
  {
    if IsRed(f) || c.Top? {
      PlugValid(c, Blacken(f));
      PlugSameOrder(c, f, Blacken(f));
    } else {
      RemStepSafe(c, f);
      RemStepOrder(c, f);
      var (d, g) := RemStep(c, f);
      RemFixCorrect(d, g);
    }
  }

  /** A node of colour `k` above `f` has been taken out: repair if it was black. */
  function CutFix(c: Ctx, f: Tree, k: Color): Tree
    requires k.Black? ==> RemHole(c, f)
  {
    if k.Black? then RemFix(c, f) else Plug(c, f)
  }

  /** The way down to the leftmost node, as a context within `t`. */
  function Leftmost(c: Ctx, t: Tree): (r: (Ctx, Tree))
    requires t.Bin?
    ensures r.1.Bin? && r.1.left.Nil?
    ensures Plug(r.0, r.1) == Plug(c, t)
    ensures Before(r.0) == Before(c)
    decreases t
  {
    if t.left.Nil? then (c, t) else Leftmost(InLeft(c, t.node, t.color, t.right), t.left)
  }

  /** Where the hole is, what is in it and which colour went missing once the root of
      `t` is unlinked: a node with two children is replaced by its successor. */
  function Unlink(c: Ctx, t: Tree): (Ctx, Tree, Color)
    requires t.Bin?
  {
    if t.left.Nil? then (c, t.right, t.color)
    else if t.right.Nil? then (c, t.left, t.color)
    else
      var (i, s) := Leftmost(Top, t.right);
      (Over(i, InRight(c, t.left, s.node, t.color)), s.right, s.color)
  }

  lemma JoinThree(a: seq<Node>, b: seq<Node>, x: Node, d: seq<Node>, e: seq<Node>)
    ensures a + b + [x] + d + e == a + b + ([x] + d) + e
  {
  }

  lemma LeftmostOrder(t: Tree)
    requires t.Bin?
    ensures var (i, s) := Leftmost(Top, t); InOrder(t) == [s.node] + InOrder(Plug(i, s.right))
  {
    var (i, s) := Leftmost(Top, t);
    PlugOrder(i, s);
    PlugOrder(i, s.right);
    PopFront(s.node, InOrder(s.right), After(i));
  }

  lemma PopFront(x: Node, b: seq<Node>, d: seq<Node>)
    ensures [] + ([] + [x] + b) + d == [x] + ([] + b + d)
  {
  }

  lemma UnlinkOrder(c: Ctx, t: Tree)
    requires t.Bin?
    ensures var (d, f, _) := Unlink(c, t);
            InOrder(Plug(d, f)) == Before(c) + InOrder(t.left) + InOrder(t.right) + After(c)
  {
    if t.left.Nil? || t.right.Nil? {
      var (d, f, _) := Unlink(c, t);
      PlugOrder(d, f);
    } else {
      var (i, s) := Leftmost(Top, t.right);
      LeftmostOrder(t.right);
      var outer, rest := InRight(c, t.left, s.node, t.color), Plug(i, s.right);
      PlugOver(i, outer, s.right);
      PlugOrder(outer, rest);
      JoinThree(Before(c), InOrder(t.left), s.node, InOrder(rest), After(c));
    }
  }

  lemma UnlinkSafe(c: Ctx, t: Tree)
    requires t.Bin? && ValidRB(Plug(c, t))
    ensures var (d, f, k) := Unlink(c, t);
            (k.Black? ==> RemHole(d, f)) && (k.Red? ==> ValidRB(Plug(d, f)))
  {
    var (d, f, k) := Unlink(c, t);
    PlugValid(c, t);
    if t.left.Bin? && t.right.Bin? {
      var (i, s) := Leftmost(Top, t.right);
      PlugValid(c, t.(node := s.node));
      PlugOver(i, InRight(c, t.left, s.node, t.color), s);
      PlugValid(d, s);
    }
    assert Balanced(f) && BlackHeight(f) == 0;
    PlugValid(d, f);
  }
}
