/** The red-black tree of utils/tree.h on the heap: parent links, rotations in place
    and the two repair loops. Each method is proved to turn the tree it stands for
    into what the functions of RedBlack and RedBlackDict say. */
module RedBlackTree {
  import opened Elements
  import opened Dictionary
  import opened RedBlack
  import opened RedBlackDict
  import opened Powers

  // ---------- What the links stand for ----------

  ghost function Nodes(t: Tree): set<Node> {
    if t.Nil? then {} else Nodes(t.left) + {t.node} + Nodes(t.right)
  }

  ghost function CtxNodes(c: Ctx): set<Node> {
    if c.Top? then {} else CtxNodes(c.up) + {c.node} + Nodes(Sibling(c))
  }

  /** The node above the hole. */
  function Parent(c: Ctx): Node? {
    if c.Top? then null else c.node
  }

  /** The heap below Root(t) is exactly `t`, hanging from `p`, without sharing. */
  ghost predicate Linked(t: Tree, p: Node?)
    reads Nodes(t)
  {
    t.Bin? ==>
      && t.node.left == Root(t.left) && t.node.right == Root(t.right)
      && t.node.parent == p && t.node.color == t.color
      && t.node !in Nodes(t.left) && t.node !in Nodes(t.right) && Nodes(t.left) !! Nodes(t.right)
      && Linked(t.left, t.node) && Linked(t.right, t.node)
  }

  lemma {:induction false} NodesInOrder(t: Tree, n: Node)
    ensures n in Nodes(t) <==> n in InOrder(t)
  {
    if t.Bin? {
      NodesInOrder(t.left, n);
      NodesInOrder(t.right, n);
    }
  }

  lemma NodesAreValues(t: Tree)
    requires Sorted(InOrder(t))
    ensures Holds(Dict(InOrder(t)), Nodes(t))
  {
    forall n: Node ensures n in Nodes(t) <==> n in InOrder(t) {
      NodesInOrder(t, n);
    }
    HoldsIfSame(InOrder(t), Nodes(t));
  }

  /** Insertion in terms of the map and of the set of nodes. */
  lemma InsertNodes(t: Tree, n: Node)
    requires Good(t)
    ensures var u, m := Insert(t, n), Dict(InOrder(t));
            && Good(u) && Find(t, n.key) == Lookup(m, n.key)
            && if n.key in m then u == t
               else n !in Nodes(t) && Dict(InOrder(u)) == m[n.key := n] && Nodes(u) == Nodes(t) + {n}
  {
    var u := Insert(t, n);
    InsertCorrect(t, n);
    FindIsLookup(t, n.key);
    NodesAreValues(t);
    NodesAreValues(u);
    HoldsUpdate(Dict(InOrder(t)), Nodes(t), n, Dict(InOrder(u)), Nodes(u));
  }

  lemma InsertKeeps(t: Tree, n: Node)
    requires Good(t)
    ensures var u := Insert(t, n);
            Good(u) && if Find(t, n.key) != null then u == t else n !in Nodes(t) && Nodes(u) == Nodes(t) + {n}
  {
    InsertNodes(t, n);
  }

  /** Removal in terms of the map and of the set of nodes. */
  lemma RemovePlan(t: Tree, n: Node) returns (c: Ctx, f: Tree)
    requires Good(t) && n in Nodes(t)
    ensures f.Bin? && f.node == n && Plug(c, f) == t
    ensures Find(t, n.key) == n && RemoveAt(c, f) == Remove(t, n.key)
    ensures var u := RemoveAt(c, f);
            Good(u) && Dict(InOrder(u)) == Dict(InOrder(t)) - {n.key} && Nodes(u) == Nodes(t) - {n}
  {
    NodesAreValues(t);
    FindIsLookup(t, n.key);
    RemoveCorrect(t, n.key);
    var u, r := Remove(t, n.key), Search(Top, t, n.key);
    c, f := r.0, r.1;
    NodesAreValues(u);
    HoldsUpdate(Dict(InOrder(t)), Nodes(t), n, Dict(InOrder(u)), Nodes(u));
  }

  class RBTree {
    var root: Node?
    ghost var tree: Tree
    ghost var nodes: set<Node>

    /** The heap around the hole is exactly `c`, and the hole holds `h`. */
    ghost predicate CtxLinked(c: Ctx, h: Node?)
      reads `root, CtxNodes(c)
    {
      if c.Top? then root == h
      else
        && c.node.left == (if c.InLeft? then h else Root(c.left))
        && c.node.right == (if c.InLeft? then Root(c.right) else h)
        && c.node.parent == Parent(c.up) && c.node.color == c.color
        && c.node !in CtxNodes(c.up) && c.node !in Nodes(Sibling(c)) && CtxNodes(c.up) !! Nodes(Sibling(c))
        && Linked(Sibling(c), c.node) && CtxLinked(c.up, c.node)
    }

    /** The heap is the tree Plug(c, f), cut open above `f`, within the nodes `s`. */
    ghost predicate At(c: Ctx, f: Tree, s: set<Node>)
      reads `root, s
    {
      && CtxNodes(c) <= s && Nodes(f) <= s && CtxNodes(c) !! Nodes(f)
      && CtxLinked(c, Root(f)) && Linked(f, Parent(c))
    }

    ghost predicate Valid()
      reads this, nodes
    {
      nodes == Nodes(tree) && At(Top, tree, nodes) && Good(tree)
    }

    /** The cut may be moved one level. */
    lemma Zoom(c: Ctx, f: Tree, s: set<Node>)
      requires !c.Top?
      ensures At(c, f, s) <==> At(c.up, Fill(c, f), s)
    {
      var g := Fill(c, f);
      assert Linked(g, Parent(c.up)) <==>
             && c.node.left == Root(g.left) && c.node.right == Root(g.right)
             && c.node.parent == Parent(c.up) && c.node.color == c.color
             && c.node !in Nodes(g.left) && c.node !in Nodes(g.right) && Nodes(g.left) !! Nodes(g.right)
             && Linked(g.left, c.node) && Linked(g.right, c.node);
    }

    lemma {:induction false} Whole(c: Ctx, f: Tree, s: set<Node>)
      ensures At(c, f, s) <==> At(Top, Plug(c, f), s)
      decreases c
    {
      if !c.Top? {
        Zoom(c, f, s);
        Whole(c.up, Fill(c, f), s);
      }
    }

    // ---------- Primitive steps ----------

    method Paint(n: Node, k: Color, ghost c: Ctx, ghost f: Tree, ghost s: set<Node>)
      requires f.Bin? && f.node == n && At(c, f, s)
      modifies n`color
      ensures At(c, f.(color := k), s)
    {
      n.color := k;
    }

    method PaintLeft(n: Node, k: Color, ghost c: Ctx, ghost f: Tree, ghost s: set<Node>)
      requires f.Bin? && f.left.Bin? && f.left.node == n && At(c, f, s)
      modifies n`color
      ensures At(c, f.(left := f.left.(color := k)), s)
    {
      ghost var d := InLeft(c, f.node, f.color, f.right);
      Zoom(d, f.left, s);
      Paint(n, k, d, f.left, s);
      Zoom(d, f.left.(color := k), s);
    }

    method PaintRight(n: Node, k: Color, ghost c: Ctx, ghost f: Tree, ghost s: set<Node>)
      requires f.Bin? && f.right.Bin? && f.right.node == n && At(c, f, s)
      modifies n`color
      ensures At(c, f.(right := f.right.(color := k)), s)
    {
      ghost var d := InRight(c, f.left, f.node, f.color);
      Zoom(d, f.right, s);
      Paint(n, k, d, f.right, s);
      Zoom(d, f.right.(color := k), s);
    }

    /** RB_ROTATE_LEFT: `elm` and its right child change places. Only these two, the
        subtree that moves across (its parent link) and one link above are written. */
    method RotateLeft(elm: Node) returns (tmp: Node)
      requires elm.right != null && elm.right != elm && elm.parent != elm.right && elm.parent != elm
      requires elm.right.left != elm.right && elm.right.left != elm
      requires elm.right.left != null ==> elm.right.left != elm.parent
      modifies `root, elm`right, elm`parent, elm.right`left, elm.right`parent
      modifies (if elm.right.left == null then {} else {elm.right.left})`parent
      modifies (if elm.parent == null then {} else {elm.parent})`left
      modifies (if elm.parent == null then {} else {elm.parent})`right
      ensures tmp == old(elm.right) && tmp.left == elm && tmp.parent == old(elm.parent)
      ensures elm.right == old(elm.right.left) && elm.parent == tmp
      ensures elm.right != null ==> elm.right.parent == elm
      ensures var p := old(elm.parent);
              if p == null then root == tmp
              else
                && root == old(root)
                && p.left == (if old(elm.parent.left) == elm then tmp else old(elm.parent.left))
                && p.right == (if old(elm.parent.left) == elm then old(elm.parent.right) else tmp)
    {
      tmp := elm.right;
      elm.right := tmp.left;
      if elm.right != null {
        tmp.left.parent := elm;
      }
      tmp.parent := elm.parent;
      if tmp.parent != null {
        if elm == elm.parent.left {
          elm.parent.left := tmp;
        } else {
          elm.parent.right := tmp;
        }
      } else {
        root := tmp;
      }
      tmp.left := elm;
      elm.parent := tmp;
    }

    /** RB_ROTATE_RIGHT: `elm` and its left child change places. Only these two, the
        subtree that moves across (its parent link) and one link above are written. */
    method RotateRight(elm: Node) returns (tmp: Node)
      requires elm.left != null && elm.left != elm && elm.parent != elm.left && elm.parent != elm
      requires elm.left.right != elm.left && elm.left.right != elm
      requires elm.left.right != null ==> elm.left.right != elm.parent
      modifies `root, elm`left, elm`parent, elm.left`right, elm.left`parent
      modifies (if elm.left.right == null then {} else {elm.left.right})`parent
      modifies (if elm.parent == null then {} else {elm.parent})`right
      modifies (if elm.parent == null then {} else {elm.parent})`left
      ensures tmp == old(elm.left) && tmp.right == elm && tmp.parent == old(elm.parent)
      ensures elm.left == old(elm.left.right) && elm.parent == tmp
      ensures elm.left != null ==> elm.left.parent == elm
      ensures var p := old(elm.parent);
              if p == null then root == tmp
              else
                && root == old(root)
                && p.left == (if old(elm.parent.left) == elm then tmp else old(elm.parent.left))
                && p.right == (if old(elm.parent.left) == elm then old(elm.parent.right) else tmp)
    {
      tmp := elm.left;
      elm.left := tmp.right;
      if elm.left != null {
        tmp.right.parent := elm;
      }
      tmp.parent := elm.parent;
      if tmp.parent != null {
        if elm == elm.parent.left {
          elm.parent.left := tmp;
        } else {
          elm.parent.right := tmp;
        }
      } else {
        root := tmp;
      }
      tmp.right := elm;
      elm.parent := tmp;
    }

    /** Rotating left and then right at the pair restores every link. */
    method RotateThereAndBack(elm: Node)
      requires elm.right != null && elm.right != elm && elm.parent != elm.right && elm.parent != elm
      requires elm.right.left != elm.right && elm.right.left != elm
      requires elm.right.left != null ==> elm.right.left != elm.parent
      requires elm.right.parent == elm && (elm.right.left != null ==> elm.right.left.parent == elm.right)
      requires if elm.parent == null then root == elm
               else elm.parent.left == elm || (elm.parent.left != elm.right && elm.parent.right == elm)
      modifies `root, elm`right, elm`left, elm`parent, elm.right`left, elm.right`right, elm.right`parent
      modifies (if elm.right.left == null then {} else {elm.right.left})`parent
      modifies (if elm.parent == null then {} else {elm.parent})`left
      modifies (if elm.parent == null then {} else {elm.parent})`right
      ensures unchanged(this) && unchanged(elm) && unchanged(old(elm.right))
      ensures old(elm.right.left) != null ==> unchanged(old(elm.right.left))
      ensures old(elm.parent) != null ==> unchanged(old(elm.parent))
    {
      var tmp := RotateLeft(elm);
      tmp := RotateRight(tmp);
    }

    method RotateLeftAt(elm: Node, ghost c: Ctx, ghost f: Tree, ghost s: set<Node>) returns (tmp: Node)
      requires f.Bin? && f.right.Bin? && f.node == elm && At(c, f, s)
      modifies `root, s
      ensures tmp == f.right.node
      ensures At(c, RotatedLeft(f), s)
    {
      assert Linked(f.right, elm) && Linked(f.right.left, f.right.node);
      tmp := RotateLeft(elm);
      ghost var g := RotatedLeft(f);
      assert Linked(g.left, tmp);
    }

    method RotateRightAt(elm: Node, ghost c: Ctx, ghost f: Tree, ghost s: set<Node>) returns (tmp: Node)
      requires f.Bin? && f.left.Bin? && f.node == elm && At(c, f, s)
      modifies `root, s
      ensures tmp == f.left.node
      ensures At(c, RotatedRight(f), s)
    {
      assert Linked(f.left, elm) && Linked(f.left.right, f.left.node);
      tmp := RotateRight(elm);
      ghost var g := RotatedRight(f);
      assert Linked(g.right, tmp);
    }

    // ---------- Insertion ----------

    /** One iteration of RB_INSERT_COLOR, `parent` being a left child. Returns the
        next `elm`. */
    method InsertStepLeft(elm: Node, parent: Node, gparent: Node, ghost c: Ctx, ghost f: Tree, ghost s: set<Node>)
      returns (next: Node)
      requires InsHole(c, f) && HoleUnderRed(c) && c.up.InLeft? && At(c, f, s)
      requires elm == f.node && parent == c.node && gparent == c.up.node
      modifies `root, s
      ensures var (d, g) := InsStep(c, f); At(d, g, s) && next == g.node
    {
      var elm, parent := elm, parent;
      Zoom(c, f, s);
      ghost var up, pt := c.up, Fill(c, f);
      Zoom(up, pt, s);
      ghost var top, gt := up.up, Fill(up, pt);
      var tmp := gparent.right;
      if tmp != null && tmp.color == Red {
        PaintRight(tmp, Black, top, gt, s);
        gt := gt.(right := gt.right.(color := Black));
        PaintLeft(parent, Black, top, gt, s);
        gt := gt.(left := gt.left.(color := Black));
        Paint(gparent, Red, top, gt, s);
        return gparent;
      }
      if parent.right == elm {
        tmp := RotateLeftAt(parent, up, pt, s);
        pt := RotatedLeft(pt);
        gt := gt.(left := pt);
        Zoom(up, pt, s);
        tmp := parent;
        parent := elm;
        elm := tmp;
      }
      PaintLeft(parent, Black, top, gt, s);
      gt := gt.(left := gt.left.(color := Black));
      Paint(gparent, Red, top, gt, s);
      gt := gt.(color := Red);
      tmp := RotateRightAt(gparent, top, gt, s);
      ghost var (d, g) := InsStep(c, f);
      Zoom(d, g, s);
      return elm;
    }

    /** One iteration of RB_INSERT_COLOR, `parent` being a right child. Returns the
        next `elm`. */
    method InsertStepRight(elm: Node, parent: Node, gparent: Node, ghost c: Ctx, ghost f: Tree, ghost s: set<Node>)
      returns (next: Node)
      requires InsHole(c, f) && HoleUnderRed(c) && c.up.InRight? && At(c, f, s)
      requires elm == f.node && parent == c.node && gparent == c.up.node
      modifies `root, s
      ensures var (d, g) := InsStep(c, f); At(d, g, s) && next == g.node
    {
      var elm, parent := elm, parent;
      Zoom(c, f, s);
      ghost var up, pt := c.up, Fill(c, f);
      Zoom(up, pt, s);
      ghost var top, gt := up.up, Fill(up, pt);
      var tmp := gparent.left;
      if tmp != null && tmp.color == Red {
        PaintLeft(tmp, Black, top, gt, s);
        gt := gt.(left := gt.left.(color := Black));
        PaintRight(parent, Black, top, gt, s);
        gt := gt.(right := gt.right.(color := Black));
        Paint(gparent, Red, top, gt, s);
        return gparent;
      }
      if parent.left == elm {
        tmp := RotateRightAt(parent, up, pt, s);
        pt := RotatedRight(pt);
        gt := gt.(right := pt);
        Zoom(up, pt, s);
        tmp := parent;
        parent := elm;
        elm := tmp;
      }
      PaintRight(parent, Black, top, gt, s);
      gt := gt.(right := gt.right.(color := Black));
      Paint(gparent, Red, top, gt, s);
      gt := gt.(color := Red);
      tmp := RotateLeftAt(gparent, top, gt, s);
      ghost var (d, g) := InsStep(c, f);
      Zoom(d, g, s);
      return elm;
    }

    /** RB_INSERT_COLOR; `turns` counts the iterations. */
    method InsertColor(elm: Node, ghost c: Ctx, ghost f: Tree, ghost s: set<Node>) returns (ghost turns: nat)
      requires InsHole(c, f) && f.node == elm && At(c, f, s)
      modifies `root, s
      ensures At(Top, InsFix(c, f), s) && turns <= Depth(c)
    {
      var elm := elm;
      ghost var d, g := c, f;
      turns := 0;
      while elm.parent != null && elm.parent.color == Red
        invariant At(d, g, s) && InsHole(d, g) && g.node == elm
        invariant InsFix(d, g) == InsFix(c, f) && turns + Depth(d) <= Depth(c)
        decreases Depth(d)
      {
        turns := turns + 1;
        InsStepSafe(d, g);
        Zoom(d, g, s);
        Zoom(d.up, Fill(d, g), s);
        var parent := elm.parent;
        var gparent := parent.parent;
        if parent == gparent.left {
          elm := InsertStepLeft(elm, parent, gparent, d, g, s);
        } else {
          elm := InsertStepRight(elm, parent, gparent, d, g, s);
        }
        d, g := InsStep(d, g).0, InsStep(d, g).1;
      }
      Whole(d, g, s);
      Paint(root, Black, Top, Plug(d, g), s);
    }

    // ---------- Removal ----------

    lemma {:induction false} RootAbove(c: Ctx, h: Node?)
      requires CtxLinked(c, h) && !c.Top?
      ensures root in CtxNodes(c)
    {
      if !c.up.Top? { RootAbove(c.up, c.node); }
    }

    /** If the sibling on the right is red, it is rotated up. Returns the sibling
        that `elm` has then, which is black. */
    method RaiseRight(parent: Node, ghost d: Ctx, ghost g: Tree, ghost s: set<Node>) returns (tmp: Node)
      requires RemHole(d, g) && d.InLeft? && d.node == parent && At(d, g, s)
      modifies `root, s
      ensures At(RemLower(d), g, s) && tmp == Root(Sibling(RemLower(d)))
    {
      RemLowerSafe(d, g);
      tmp := parent.right;
      assert Linked(d.right, parent);
      if tmp.color == Red {
        Zoom(d, g, s);
        ghost var up, pt := d.up, Fill(d, g);
        PaintRight(tmp, Black, up, pt, s);
        pt := pt.(right := pt.right.(color := Black));
        Paint(parent, Red, up, pt, s);
        pt := pt.(color := Red);
        tmp := RotateLeftAt(parent, up, pt, s);
        ghost var e := RemLower(d);
        Zoom(e.up, Fill(e, g), s);
        Zoom(e, g, s);
        tmp := parent.right;
      }
    }

    /** A red child of the black sibling on the right ends the repair. */
    method FinishRight(parent: Node, sibling: Node, ghost d: Ctx, ghost g: Tree, ghost s: set<Node>)
      requires d.InLeft? && d.right.Bin? && d.node == parent && d.right.node == sibling && At(d, g, s)
      requires IsRed(d.right.left) || IsRed(d.right.right)
      modifies `root, s
      ensures At(d.up, RemDone(d, g), s)
    {
      var tmp := sibling;
      Zoom(d, g, s);
      ghost var up, pt := d.up, Fill(d, g);
      ghost var e := InRight(up, pt.left, pt.node, pt.color);
      Zoom(e, pt.right, s);
      ghost var st := pt.right;
      assert Linked(st.right, tmp);
      if tmp.right == null || tmp.right.color == Black {
        var oleft := tmp.left;
        if oleft != null {
          PaintLeft(oleft, Black, e, st, s);
          st := st.(left := st.left.(color := Black));
        }
        Paint(tmp, Red, e, st, s);
        st := st.(color := Red);
        oleft := RotateRightAt(tmp, e, st, s);
        st := RotatedRight(st);
        Zoom(e, st, s);
        tmp := parent.right;
      }
      Paint(tmp, parent.color, e, st, s);
      st := st.(color := d.color);
      if tmp.right != null {
        PaintRight(tmp.right, Black, e, st, s);
        st := st.(right := Blacken(st.right));
      }
      Zoom(e, st, s);
      pt := pt.(right := st);
      Paint(parent, Black, up, pt, s);
      pt := pt.(color := Black);
      tmp := RotateLeftAt(parent, up, pt, s);
    }

    /** If the sibling on the left is red, it is rotated up. Returns the sibling
        that `elm` has then, which is black. */
    method RaiseLeft(parent: Node, ghost d: Ctx, ghost g: Tree, ghost s: set<Node>) returns (tmp: Node)
      requires RemHole(d, g) && d.InRight? && d.node == parent && At(d, g, s)
      modifies `root, s
      ensures At(RemLower(d), g, s) && tmp == Root(Sibling(RemLower(d)))
    {
      RemLowerSafe(d, g);
      tmp := parent.left;
      assert Linked(d.left, parent);
      if tmp.color == Red {
        Zoom(d, g, s);
        ghost var up, pt := d.up, Fill(d, g);
        PaintLeft(tmp, Black, up, pt, s);
        pt := pt.(left := pt.left.(color := Black));
        Paint(parent, Red, up, pt, s);
        pt := pt.(color := Red);
        tmp := RotateRightAt(parent, up, pt, s);
        ghost var e := RemLower(d);
        Zoom(e.up, Fill(e, g), s);
        Zoom(e, g, s);
        tmp := parent.left;
      }
    }

    /** A red child of the black sibling on the left ends the repair. */
    method FinishLeft(parent: Node, sibling: Node, ghost d: Ctx, ghost g: Tree, ghost s: set<Node>)
      requires d.InRight? && d.left.Bin? && d.node == parent && d.left.node == sibling && At(d, g, s)
      requires IsRed(d.left.right) || IsRed(d.left.left)
      modifies `root, s
      ensures At(d.up, RemDone(d, g), s)
    {
      var tmp := sibling;
      Zoom(d, g, s);
      ghost var up, pt := d.up, Fill(d, g);
      ghost var e := InLeft(up, pt.node, pt.color, pt.right);
      Zoom(e, pt.left, s);
      ghost var st := pt.left;
      assert Linked(st.left, tmp);
      if tmp.left == null || tmp.left.color == Black {
        var oright := tmp.right;
        if oright != null {
          PaintRight(oright, Black, e, st, s);
          st := st.(right := st.right.(color := Black));
        }
        Paint(tmp, Red, e, st, s);
        st := st.(color := Red);
        oright := RotateLeftAt(tmp, e, st, s);
        st := RotatedLeft(st);
        Zoom(e, st, s);
        tmp := parent.left;
      }
      Paint(tmp, parent.color, e, st, s);
      st := st.(color := d.color);
      if tmp.left != null {
        PaintLeft(tmp.left, Black, e, st, s);
        st := st.(left := Blacken(st.left));
      }
      Zoom(e, st, s);
      pt := pt.(left := st);
      Paint(parent, Black, up, pt, s);
      pt := pt.(color := Black);
      tmp := RotateRightAt(parent, up, pt, s);
    }

    /** What the children of the sibling on the heap are. */
    lemma SiblingLinks(d: Ctx, g: Tree, s: set<Node>)
      requires At(d, g, s) && !d.Top? && Sibling(d).Bin?
      ensures var u := Sibling(d); var n := u.node;
              && n.left == Root(u.left) && (n.left != null && n.left.color == Red <==> IsRed(u.left))
              && n.right == Root(u.right) && (n.right != null && n.right.color == Red <==> IsRed(u.right))
    {
      var u := Sibling(d);
      assert Linked(u, d.node) && Linked(u.left, u.node) && Linked(u.right, u.node);
    }

    /** Without a red child of the black sibling on the right, the shortage moves up. */
    method ShiftRight(parent: Node, sibling: Node, ghost d: Ctx, ghost g: Tree, ghost s: set<Node>)
      requires d.InLeft? && d.right.Bin? && d.node == parent && d.right.node == sibling && At(d, g, s)
      requires !IsRed(d.right.left) && !IsRed(d.right.right)
      modifies `root, s
      ensures var (e, h) := RemShift(d, g); At(e, h, s) && parent == Root(h) && parent.parent == Parent(e)
    {
      Zoom(d, g, s);
      PaintRight(sibling, Red, d.up, Fill(d, g), s);
    }

    /** One iteration of RB_REMOVE_COLOR for a left child `elm`. Returns the next
        `parent` and `elm`, and whether the loop is left. */
    method RemoveStepLeft(parent: Node, ghost d: Ctx, ghost g: Tree, ghost s: set<Node>)
      returns (parent': Node?, elm': Node?, leave: bool)
      requires RemHole(d, g) && !IsRed(g) && d.InLeft? && d.node == parent && At(d, g, s)
      modifies `root, s
      ensures var (e, h) := RemStep(d, g);
              At(e, h, s) && elm' == Root(h) && if leave then e.Top? else parent' == Parent(e)
    {
      RemLowerSafe(d, g);
      var tmp := RaiseRight(parent, d, g, s);
      ghost var l := RemLower(d);
      SiblingLinks(l, g, s);
      if (tmp.left == null || tmp.left.color == Black) && (tmp.right == null || tmp.right.color == Black) {
        ShiftRight(parent, tmp, l, g, s);
        return parent.parent, parent, false;
      } else {
        FinishRight(parent, tmp, l, g, s);
        Whole(l.up, RemDone(l, g), s);
        return parent, root, true;
      }
    }

    /** Without a red child of the black sibling on the left, the shortage moves up. */
    method ShiftLeft(parent: Node, sibling: Node, ghost d: Ctx, ghost g: Tree, ghost s: set<Node>)
      requires d.InRight? && d.left.Bin? && d.node == parent && d.left.node == sibling && At(d, g, s)
      requires !IsRed(d.left.left) && !IsRed(d.left.right)
      modifies `root, s
      ensures var (e, h) := RemShift(d, g); At(e, h, s) && parent == Root(h) && parent.parent == Parent(e)
    {
      Zoom(d, g, s);
      PaintLeft(sibling, Red, d.up, Fill(d, g), s);
    }

    /** One iteration of RB_REMOVE_COLOR for a right child `elm`. Returns the next
        `parent` and `elm`, and whether the loop is left. */
    method RemoveStepRight(parent: Node, ghost d: Ctx, ghost g: Tree, ghost s: set<Node>)
      returns (parent': Node?, elm': Node?, leave: bool)
      requires RemHole(d, g) && !IsRed(g) && d.InRight? && d.node == parent && At(d, g, s)
      modifies `root, s
      ensures var (e, h) := RemStep(d, g);
              At(e, h, s) && elm' == Root(h) && if leave then e.Top? else parent' == Parent(e)
    {
      RemLowerSafe(d, g);
      var tmp := RaiseLeft(parent, d, g, s);
      ghost var l := RemLower(d);
      SiblingLinks(l, g, s);
      if (tmp.left == null || tmp.left.color == Black) && (tmp.right == null || tmp.right.color == Black) {
        ShiftLeft(parent, tmp, l, g, s);
        return parent.parent, parent, false;
      } else {
        FinishLeft(parent, tmp, l, g, s);
        Whole(l.up, RemDone(l, g), s);
        return parent, root, true;
      }
    }

    /** One iteration of RB_REMOVE_COLOR. */
    method RemoveStep(parent: Node, elm: Node?, ghost d: Ctx, ghost g: Tree, ghost s: set<Node>)
      returns (parent': Node?, elm': Node?, leave: bool)
      requires RemHole(d, g) && !IsRed(g) && !d.Top? && d.node == parent && elm == Root(g) && At(d, g, s)
      modifies `root, s
      ensures var (e, h) := RemStep(d, g);
              At(e, h, s) && elm' == Root(h) && if leave then e.Top? else parent' == Parent(e)
    {
      RemLowerSafe(d, g);
      if parent.left == elm {
        parent', elm', leave := RemoveStepLeft(parent, d, g, s);
      } else {
        parent', elm', leave := RemoveStepRight(parent, d, g, s);
      }
    }

    /** RB_REMOVE_COLOR: every path through the hole above `elm` is one black node
        short on entry, and none is on return. `turns` counts the iterations. */
    method RemoveColor(parent: Node?, elm: Node?, ghost c: Ctx, ghost f: Tree, ghost s: set<Node>)
      returns (ghost turns: nat)
      requires RemHole(c, f) && At(c, f, s) && elm == Root(f) && parent == Parent(c)
      modifies `root, s
      ensures At(Top, RemFix(c, f), s) && turns <= RemMeasure(c, f)
    {
      var parent, elm := parent, elm;
      ghost var d, g := c, f;
      turns := 0;
      while (elm == null || elm.color == Black) && elm != root
        invariant At(d, g, s) && RemHole(d, g) && elm == Root(g) && parent == Parent(d)
        invariant RemFix(d, g) == RemFix(c, f) && turns + RemMeasure(d, g) <= RemMeasure(c, f)
        decreases RemMeasure(d, g)
      {
        turns := turns + 1;
        RemStepSafe(d, g);
        var leave;
        parent, elm, leave := RemoveStep(parent, elm, d, g, s);
        d, g := RemStep(d, g).0, RemStep(d, g).1;
        if leave { break; }
      }
      if !d.Top? { RootAbove(d, elm); }
      if elm != null {
        Paint(elm, Black, d, g, s);
      }
      Whole(d, Blacken(g), s);
    }

    // ---------- The operations ----------

    constructor ()
      ensures Valid() && tree == Nil
    {
      root := null;
      tree, nodes := Nil, {};
    }

    /** RB_FIND; `steps` counts the iterations of its loop. */
    method FindNode(elm: Node) returns (r: Node?, ghost steps: nat)
      requires Valid()
      ensures r == Lookup(Dict(InOrder(tree)), elm.key)
      ensures steps <= Height(tree)
    {
      ghost var s := nodes;
      FindIsLookup(tree, elm.key);
      var tmp := root;
      ghost var d, g := Top, tree;
      steps := 0;
      while tmp != null
        invariant At(d, g, s) && tmp == Root(g)
        invariant Search(d, g, elm.key) == Search(Top, tree, elm.key)
        invariant steps + Height(g) <= Height(tree)
        decreases g
      {
        var comp := Cmp(elm, tmp);
        if comp < 0 {
          tmp := tmp.left;
          d, g := InLeft(d, g.node, g.color, g.right), g.left;
        } else if comp > 0 {
          tmp := tmp.right;
          d, g := InRight(d, g.left, g.node, g.color), g.right;
        } else {
          return tmp, steps + 1;
        }
        Zoom(d, g, s);
        steps := steps + 1;
      }
      return null, steps;
    }

    /** RB_SET and the link to `elm` in its new parent, where the descent ended. */
    method LinkLeaf(elm: Node, parent: Node?, comp: int, ghost d: Ctx, ghost s: set<Node>)
      requires At(d, Nil, s) && elm !in s && parent == Parent(d)
      requires parent != null ==> (comp < 0 <==> d.InLeft?)
      modifies `root, elm
      modifies (if d.Top? then {} else {d.node})`left, (if d.Top? then {} else {d.node})`right
      ensures At(d, Bin(Nil, elm, Red, Nil), s + {elm})
    {
      elm.parent := parent;
      elm.left := null;
      elm.right := null;
      elm.color := Red;
      if parent != null {
        if comp < 0 {
          parent.left := elm;
        } else {
          parent.right := elm;
        }
      } else {
        root := elm;
      }
    }

    /** The body of RB_INSERT, on the links alone. */
    method InsertLinks(elm: Node, ghost t: Tree, ghost s: set<Node>)
      returns (r: Node?, ghost steps: nat, ghost turns: nat)
      requires At(Top, t, s) && ValidRB(t)
      requires Find(t, elm.key) == null ==> elm !in s
      modifies `root, s, elm
      ensures r == Find(t, elm.key)
      ensures if r == null then At(Top, Insert(t, elm), s + {elm}) else At(Top, t, s) && unchanged(elm)
      ensures steps <= Height(t) && turns <= Height(t)
    {
      steps := 0;
      var tmp := root;
      var parent: Node? := null;
      var comp := 0;
      ghost var d, g := Top, t;
      while tmp != null
        invariant At(d, g, s) && tmp == Root(g) && parent == Parent(d)
        invariant Search(d, g, elm.key) == Search(Top, t, elm.key) && unchanged(elm)
        invariant parent != null ==> (comp < 0 <==> d.InLeft?)
        invariant steps + Height(g) <= Height(t)
        decreases g
      {
        parent := tmp;
        comp := Cmp(elm, parent);
        if comp < 0 {
          tmp := tmp.left;
          d, g := InLeft(d, g.node, g.color, g.right), g.left;
        } else if comp > 0 {
          tmp := tmp.right;
          d, g := InRight(d, g.left, g.node, g.color), g.right;
        } else {
          Whole(d, g, s);
          return tmp, steps + 1, 0;
        }
        Zoom(d, g, s);
        steps := steps + 1;
      }
      LeafFits(t, elm);
      LinkLeaf(elm, parent, comp, d, s);
      PlugHeight(d, Nil);
      turns := InsertColor(elm, d, Bin(Nil, elm, Red, Nil), s + {elm});
      return null, steps, turns;
    }

    method InsertKept(elm: Node) returns (r: Node?, ghost steps: nat, ghost turns: nat)
      requires Valid()
      modifies this, elm, nodes
      ensures Valid() && tree == Insert(old(tree), elm)
      ensures r == Find(old(tree), elm.key) && steps <= old(Height(tree)) && turns <= old(Height(tree))
      ensures if r != null then unchanged(elm) && nodes == old(nodes) else nodes == old(nodes) + {elm}
    {
      InsertKeeps(tree, elm);
      ghost var s, t := nodes + {elm}, Insert(tree, elm);
      r, steps, turns := InsertLinks(elm, tree, nodes);
      if r == null {
        assert forall n | n in s :: n as object != this;
        tree, nodes := t, s;
      }
    }

    /** RB_INSERT: the node that has the key already, or null once `elm` is in. The
        descent takes `steps` iterations and the repair `turns`. */
    method InsertNode(elm: Node) returns (r: Node?, ghost steps: nat, ghost turns: nat)
      requires Valid()
      modifies this, elm, nodes
      ensures Valid() && tree == Insert(old(tree), elm)
      ensures r == Lookup(old(Dict(InOrder(tree))), elm.key)
      ensures steps <= old(Height(tree)) && turns <= old(Height(tree))
      ensures Dict(InOrder(tree)) == var m := old(Dict(InOrder(tree))); if r != null then m else m[elm.key := elm]
      ensures if r != null then unchanged(elm) && tree == old(tree) && nodes == old(nodes)
              else nodes == old(nodes) + {elm}
    {
      InsertNodes(tree, elm);
      r, steps, turns := InsertKept(elm);
    }

    lemma {:induction false} OverAt(i: Ctx, outer: Ctx, f: Tree, s: set<Node>)
      ensures At(Over(i, outer), f, s) <==> At(outer, Plug(i, f), s)
      decreases i
    {
      if !i.Top? {
        var d := Over(i, outer);
        Zoom(d, f, s);
        assert Fill(d, f) == Fill(i, f);
        OverAt(i.up, outer, Fill(i, f), s);
      }
    }

    /** Takes out `elm`, which has at most the one child `child`. */
    method Splice(elm: Node, child: Node?, parent: Node?, ghost c: Ctx, ghost f: Tree, ghost s: set<Node>)
      requires f.Bin? && f.node == elm && At(c, f, s) && (f.left.Nil? || f.right.Nil?)
      requires parent == Parent(c) && child == Root(if f.left.Nil? then f.right else f.left)
      modifies `root, (if c.Top? then {} else {c.node})`left, (if c.Top? then {} else {c.node})`right
      modifies (if child == null then {} else {child})`parent
      ensures At(c, if f.left.Nil? then f.right else f.left, s - {elm})
    {
      ghost var g := if f.left.Nil? then f.right else f.left;
      assert Linked(g, elm);
      if child != null {
        child.parent := parent;
      }
      if parent != null {
        if parent.left == elm {
          parent.left := child;
        } else {
          parent.right := child;
        }
      } else {
        root := child;
      }
      assert Linked(g, parent);
    }

    /** utils/tree.h:617-630: `elm` takes over all links of `gone`. */
    method TakeOver(elm: Node, gone: Node)
      requires elm != gone && gone.left != null && gone.left != gone.right
      requires gone.parent != gone && gone.left != gone && gone.right != gone
      requires gone.parent != null ==> gone.left != gone.parent && gone.right != gone.parent
      requires elm != gone.left && elm != gone.right && elm != gone.parent
      modifies `root, elm, gone.left`parent
      modifies (if gone.right == null then {} else {gone.right})`parent
      modifies (if gone.parent == null then {} else {gone.parent})`left
      modifies (if gone.parent == null then {} else {gone.parent})`right
      ensures elm.left == gone.left && elm.right == gone.right && elm.parent == gone.parent && elm.color == gone.color
      ensures gone.left == old(gone.left) && gone.right == old(gone.right) && gone.parent == old(gone.parent)
      ensures gone.left.parent == elm && (gone.right != null ==> gone.right.parent == elm)
      ensures var p := gone.parent;
              if p == null then root == elm
              else
                && root == old(root)
                && p.left == (if old(gone.parent.left) == gone then elm else old(gone.parent.left))
                && p.right == (if old(gone.parent.left) == gone then old(gone.parent.right) else elm)
    {
      elm.left, elm.right, elm.parent, elm.color := gone.left, gone.right, gone.parent, gone.color;
      if gone.parent != null {
        if gone.parent.left == gone {
          gone.parent.left := elm;
        } else {
          gone.parent.right := elm;
        }
      } else {
        root := elm;
      }
      gone.left.parent := elm;
      if gone.right != null {
        gone.right.parent := elm;
      }
    }

    method Transplant(elm: Node, gone: Node, ghost c: Ctx, ghost f: Tree, ghost s: set<Node>)
      requires f.Bin? && f.left.Bin? && f.node == gone && At(c, f, s) && elm !in s
      modifies `root, elm, s
      ensures At(c, f.(node := elm), s - {gone} + {elm})
    {
      assert Linked(f.left, gone) && Linked(f.right, gone);
      TakeOver(elm, gone);
      assert Linked(f.left, elm) && Linked(f.right, elm);
    }

    /** utils/tree.h:596-639: `gone` has two children; its successor is spliced
        out and takes its place. */
    method ReplaceBySuccessor(gone: Node, ghost c: Ctx, ghost f: Tree, ghost s: set<Node>)
      returns (child: Node?, parent: Node?, color: Color, ghost steps: nat)
      requires f.Bin? && f.left.Bin? && f.right.Bin? && f.node == gone && At(c, f, s)
      modifies `root, s
      ensures var (d, g, k) := Unlink(c, f);
              At(d, g, s - {gone}) && child == Root(g) && parent == Parent(d) && color == k
      ensures steps == Depth(Leftmost(Top, f.right).0)
    {
      ghost var outer := InRight(c, f.left, gone, f.color);
      var elm;
      elm, steps := Successor(gone, c, f, s);
      ghost var (i, h) := Leftmost(Top, f.right);
      OverParent(i, outer, h, s);
      child := elm.right;
      parent := elm.parent;
      color := elm.color;
      Splice(elm, child, parent, Over(i, outer), h, s);
      if elm.parent == gone {
        parent := elm;
      }
      SwapOuter(elm, gone, i, c, f, h.right, s - {elm});
    }

    /** utils/tree.h:597-599: down to the leftmost node of the right subtree. */
    method Successor(gone: Node, ghost c: Ctx, ghost f: Tree, ghost s: set<Node>)
      returns (elm: Node, ghost steps: nat)
      requires f.Bin? && f.left.Bin? && f.right.Bin? && f.node == gone && At(c, f, s)
      ensures var (i, h) := Leftmost(Top, f.right);
              elm == h.node && At(Over(i, InRight(c, f.left, gone, f.color)), h, s) && steps == Depth(i)
    {
      ghost var outer := InRight(c, f.left, gone, f.color);
      Zoom(outer, f.right, s);
      elm := gone.right;
      ghost var i, h := Top, f.right;
      steps := 0;
      while elm.left != null
        invariant At(Over(i, outer), h, s) && h.Bin? && h.node == elm
        invariant Leftmost(i, h) == Leftmost(Top, f.right) && steps == Depth(i)
        decreases h
      {
        steps := steps + 1;
        assert Linked(h.left, elm);
        elm := elm.left;
        i, h := InLeft(i, h.node, h.color, h.right), h.left;
        Zoom(Over(i, outer), h, s);
      }
    }

    lemma OverParent(i: Ctx, outer: Ctx, h: Tree, s: set<Node>)
      requires At(Over(i, outer), h, s) && !outer.Top?
      ensures i.Top? <==> Parent(Over(i, outer)) == outer.node
    {
      OverAt(i, outer, h, s);
      if !i.Top? {
        OverHas(i.up, outer);
      }
    }

    lemma {:induction false} OverHas(i: Ctx, outer: Ctx)
      requires !outer.Top?
      ensures outer.node in CtxNodes(Over(i, outer))
    {
      if !i.Top? { OverHas(i.up, outer); }
    }

    /** The transplant seen from the place `i` below the right child. */
    method SwapOuter(elm: Node, gone: Node, ghost i: Ctx, ghost c: Ctx, ghost f: Tree,
                     ghost g: Tree, ghost s: set<Node>)
      requires f.Bin? && f.left.Bin? && f.node == gone && elm !in s
      requires At(Over(i, InRight(c, f.left, gone, f.color)), g, s)
      modifies `root, elm, s
      ensures At(Over(i, InRight(c, f.left, elm, f.color)), g, s - {gone} + {elm})
    {
      ghost var rest, s' := Plug(i, g), s - {gone} + {elm};
      ghost var outer, outer' := InRight(c, f.left, gone, f.color), InRight(c, f.left, elm, f.color);
      OverAt(i, outer, g, s);
      Zoom(outer, rest, s);
      Transplant(elm, gone, c, Fill(outer, rest), s);
      Zoom(outer', rest, s');
      OverAt(i, outer', g, s');
    }

    /** The body of RB_REMOVE, on the links alone. */
    method RemoveLinks(elm: Node, ghost c: Ctx, ghost f: Tree, ghost s: set<Node>)
      returns (ghost steps: nat, ghost turns: nat)
      requires f.Bin? && f.node == elm && At(c, f, s) && ValidRB(Plug(c, f))
      modifies `root, s
      ensures At(Top, RemoveAt(c, f), s - {elm})
      ensures steps <= Height(Plug(c, f)) && turns <= Height(Plug(c, f))
    {
      UnlinkSafe(c, f);
      UnlinkDepth(c, f);
      steps, turns := 0, 0;
      var child, parent, color;
      ghost var (d, g, k) := Unlink(c, f);
      if elm.left == null || elm.right == null {
        child := if elm.left == null then elm.right else elm.left;
        parent := elm.parent;
        color := elm.color;
        Splice(elm, child, parent, c, f, s);
      } else {
        child, parent, color, steps := ReplaceBySuccessor(elm, c, f, s);
      }
      if color == Black {
        turns := RemoveColor(parent, child, d, g, s - {elm});
      } else {
        Whole(d, g, s - {elm});
      }
    }

    /** RB_REMOVE of a node of the tree. The descent to the successor takes `steps`
        iterations and the repair `turns`. */
    method RemoveNode(elm: Node) returns (ghost steps: nat, ghost turns: nat)
      requires Valid() && elm in nodes
      modifies this, nodes
      ensures Find(old(tree), elm.key) == elm
      ensures Valid() && tree == Remove(old(tree), elm.key)
      ensures Dict(InOrder(tree)) == old(Dict(InOrder(tree))) - {elm.key}
      ensures nodes == old(nodes) - {elm}
      ensures steps <= old(Height(tree)) && turns <= old(Height(tree))
    {
      ghost var s := nodes;
      ghost var c, f := RemovePlan(tree, elm);
      Whole(c, f, s);
      steps, turns := RemoveLinks(elm, c, f, s);
      assert forall n | n in s :: n as object != this;
      tree, nodes := RemoveAt(c, f), s - {elm};
    }

    /** RB_MINMAX */
    method MinMaxNode(val: int) returns (r: Node?, ghost steps: nat)
      requires Valid()
      ensures Valid() && steps == EndSteps(tree, val) <= Height(tree)
      ensures r == var q := InOrder(tree); if q == [] then null else if val < 0 then q[0] else q[|q| - 1]
    {
      MinMaxIsEnd(tree, val);
      ghost var s := nodes;
      var tmp := root;
      r := null;
      ghost var d, g := Top, tree;
      steps := 0;
      while tmp != null
        invariant At(Top, tree, s) && At(d, g, s) && tmp == Root(g)
        invariant (if g.Nil? then r else MinMax(g, val)) == MinMax(tree, val)
        invariant steps + Height(g) <= Height(tree) && steps + EndSteps(g, val) == EndSteps(tree, val)
        decreases g
      {
        steps := steps + 1;
        r := tmp;
        if val < 0 {
          tmp := tmp.left;
          d, g := InLeft(d, g.node, g.color, g.right), g.left;
        } else {
          tmp := tmp.right;
          d, g := InRight(d, g.left, g.node, g.color), g.right;
        }
        Zoom(d, g, s);
      }
    }

    /** RB_NEXT, on the links alone: the first node of what follows `elm`. */
    method NextLink(elm: Node, ghost c: Ctx, ghost f: Tree, ghost s: set<Node>)
      returns (r: Node?, ghost steps: nat)
      requires f.Bin? && f.node == elm && At(c, f, s)
      ensures r == if f.right.Bin? then MinMax(f.right, -1) else if After(c) == [] then null else After(c)[0]
      ensures At(c, f, s) && steps == NextSteps(c, f) <= Depth(c) + Height(f)
    {
      var elm := elm;
      ghost var d, g := c, f;
      steps := 0;
      if elm.right != null {
        elm := elm.right;
        d, g := InRight(c, f.left, f.node, f.color), f.right;
        Zoom(d, g, s);
        while elm.left != null
          invariant At(c, f, s) && At(d, g, s) && g.Bin? && elm == g.node
          invariant MinMax(g, -1) == MinMax(f.right, -1)
          invariant steps + Height(g) <= Height(f) && steps + EndSteps(g, -1) == EndSteps(f.right, -1)
          decreases g
        {
          steps := steps + 1;
          assert Linked(g.left, elm);
          elm := elm.left;
          d, g := InLeft(d, g.node, g.color, g.right), g.left;
          Zoom(d, g, s);
        }
        return elm, steps;
      }
      if elm.parent != null && elm == elm.parent.left {
        return elm.parent, steps;
      }
      while elm.parent != null && elm == elm.parent.right
        invariant At(c, f, s) && At(d, g, s) && g.Bin? && elm == g.node
        invariant After(d) == After(c)
        invariant steps + Depth(d) <= Depth(c) && steps + Climb(d) == Climb(c)
        decreases d
      {
        steps := steps + 1;
        assert d.InRight?;
        Zoom(d, g, s);
        elm := elm.parent;
        d, g := d.up, Fill(d, g);
      }
      return elm.parent, steps;
    }

    lemma FollowedBy(c: Ctx, f: Tree, r: Node?)
      requires f.Bin?
      requires r == if f.right.Bin? then MinMax(f.right, -1) else if After(c) == [] then null else After(c)[0]
      ensures IsNext(InOrder(Plug(c, f)), f.node, r)
    {
      MinMaxIsEnd(f.right, -1);
      PlugOrder(c, f);
      var a, b := Before(c) + InOrder(f.left), InOrder(f.right) + After(c);
      var q := InOrder(Plug(c, f));
      assert q == a + [f.node] + b;
      assert q[|a|] == f.node && (b != [] ==> q[|a| + 1] == b[0]);
      assert NextAt(q, |a|, f.node, r);
    }

    /** RB_NEXT: the in-order successor, or null at the last node. */
    method NextNode(elm: Node) returns (r: Node?, ghost steps: nat)
      requires Valid() && elm in nodes
      ensures Valid() && IsNext(InOrder(tree), elm, r)
      ensures steps == StepsAfter(Top, tree, elm.key) <= Height(tree)
    {
      NodesAreValues(tree);
      FindIsLookup(tree, elm.key);
      ghost var s := nodes;
      ghost var (c, f) := Search(Top, tree, elm.key);
      Whole(c, f, s);
      PlugHeight(c, f);
      r, steps := NextLink(elm, c, f, s);
      Whole(c, f, s);
      FollowedBy(c, f, r);
    }

    /** The start of RB_FOREACH over `q`. */
    method Begin(ghost q: seq<Node>) returns (x: Node?, ghost steps: nat)
      requires Valid() && InOrder(tree) == q
      ensures x == Head(q) && steps + RestSteps(tree, q) == |q|
    {
      TraversalSteps(Top, tree);
      x, steps := MinMaxNode(-1);
    }

    /** One iteration of RB_FOREACH over `q`: `v` is visited, `rest` is not, and `x` is
        at its front. */
    method Advance(x: Node, ghost q: seq<Node>, ghost v: seq<Node>, ghost rest: seq<Node>)
      returns (next: Node?, ghost steps: nat)
      requires Valid() && InOrder(tree) == q && q == v + rest && x == Head(rest)
      ensures q == (v + [x]) + rest[1..] && next == Head(rest[1..])
      ensures steps + RestSteps(tree, rest[1..]) == RestSteps(tree, rest)
    {
      assert q[|v|] == x && q[..|v|] == v;
      NodesInOrder(tree, x);
      next, steps := NextNode(x);
      VisitNext(q, v, x, next);
    }

    /** RB_FOREACH. For n nodes, RB_MIN and all RB_NEXT together take n iterations. */
    method ForEach() returns (visited: seq<Node>, ghost steps: nat)
      requires Valid()
      ensures visited == InOrder(tree) && steps == |visited|
    {
      ghost var q := InOrder(tree);
      visited := [];
      ghost var rest, more := q, 0;
      var x;
      x, steps := Begin(q);
      while x != null
        invariant Valid() && q == visited + rest && x == Head(rest)
        invariant steps + RestSteps(tree, rest) == |q|
        decreases |rest|
      {
        var next;
        next, more := Advance(x, q, visited, rest);
        visited, rest := visited + [x], rest[1..];
        steps := steps + more;
        x := next;
      }
    }

    /** One operation, as RedBlackDict has it. All loops together take `steps`
        iterations, which is logarithmic in the number of nodes. */
    method Perform(op: Op) returns (r: Node?, ghost steps: nat)
      requires Valid()
      modifies this, nodes, if op.Put? then {op.n} else {}
      ensures Valid() && (tree, r) == Step(old(tree), op)
      ensures nodes <= old(nodes) + if op.Put? then {op.n} else {}
      ensures steps <= 6 * Log2(|old(InOrder(tree))| + 1)
    {
      HeightLog(tree);
      ghost var turns, more := 0, 0;
      match op {
        case Put(n) =>
          FindIsLookup(tree, n.key);
          r, steps, turns := InsertNode(n);
        case Delete(k) =>
          var probe := new Node(k);
          FindIsLookup(tree, k);
          NodesAreValues(tree);
          r, steps := FindNode(probe);
          if r != null { more, turns := RemoveNode(r); }
        case Get(k) =>
          var probe := new Node(k);
          FindIsLookup(tree, k);
          r, steps := FindNode(probe);
        case Least =>
          MinMaxIsEnd(tree, -1);
          r, steps := MinMaxNode(-1);
        case Greatest =>
          MinMaxIsEnd(tree, 1);
          r, steps := MinMaxNode(1);
      }
      steps := steps + more + turns;
    }

    /** Any run of operations on the heap gives the answers of Run, hence by
        RunRefines those of a map. */
    method Replay(ops: seq<Op>) returns (rs: seq<Node?>)
      requires Valid()
      modifies this, nodes, (set op | op in ops && op.Put? :: op.n)
      ensures Valid() && (tree, rs) == Run(old(tree), ops)
      decreases |ops|
    {
      rs := [];
      if ops != [] {
        var r;
        ghost var steps;
        r, steps := Perform(ops[0]);
        rs := Replay(ops[1..]);
        rs := [r] + rs;
      }
    }
  }
}
