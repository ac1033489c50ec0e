/** The splay tree of utils/tree.h on the heap. While a splay runs, the tree is in
    three pieces, and the sentinel's right and left links hold the roots of the left
    and the right tree. */
module SplayTree {
  import opened Elements
  import opened Dictionary
  import opened Splay
  import opened SplayDict
  import opened SplayCost
  import opened Powers

  function Root(t: Tree): Node? {
    if t.Nil? then null else t.node
  }

  ghost function Nodes(t: Tree): set<Node> {
    if t.Nil? then {} else Nodes(t.left) + {t.node} + Nodes(t.right)
  }

  ghost function SpineNodes(l: Spine): set<Node> {
    if l.End? then {} else SpineNodes(l.rest) + Nodes(l.sub) + {l.node}
  }

  /** The node whose link is open: the last one added, or the sentinel. */
  function Tip(l: Spine, sentinel: Node): Node {
    if l.End? then sentinel else l.node
  }

  ghost predicate Linked(t: Tree)
    reads Nodes(t)
  {
    t.Bin? ==>
      && t.node.left == Root(t.left) && t.node.right == Root(t.right)
      && t.node !in Nodes(t.left) && t.node !in Nodes(t.right) && Nodes(t.left) !! Nodes(t.right)
      && Linked(t.left) && Linked(t.right)
  }

  /** The heap holds the left tree `l`; what the open link holds is not said. */
  ghost predicate LeftLinked(l: Spine, sentinel: Node)
    reads sentinel`right, SpineNodes(l)
  {
    l.Link? ==>
      && l.node.left == Root(l.sub) && Tip(l.rest, sentinel).right == l.node
      && l.node !in Nodes(l.sub) && l.node !in SpineNodes(l.rest) && Nodes(l.sub) !! SpineNodes(l.rest)
      && Linked(l.sub) && LeftLinked(l.rest, sentinel)
  }

  ghost predicate RightLinked(r: Spine, sentinel: Node)
    reads sentinel`left, SpineNodes(r)
  {
    r.Link? ==>
      && r.node.right == Root(r.sub) && Tip(r.rest, sentinel).left == r.node
      && r.node !in Nodes(r.sub) && r.node !in SpineNodes(r.rest) && Nodes(r.sub) !! SpineNodes(r.rest)
      && Linked(r.sub) && RightLinked(r.rest, sentinel)
  }

  /** The three pieces on the heap, within the nodes `s`. */
  ghost predicate Pieces(l: Spine, t: Tree, r: Spine, sentinel: Node, s: set<Node>)
    reads sentinel, s
  {
    && sentinel !in s && SpineNodes(l) <= s && Nodes(t) <= s && SpineNodes(r) <= s
    && SpineNodes(l) !! Nodes(t) && SpineNodes(l) !! SpineNodes(r) && Nodes(t) !! SpineNodes(r)
    && LeftLinked(l, sentinel) && Linked(t) && RightLinked(r, sentinel)
  }

  /** Once the open link holds `t`, the sentinel's link holds the closed tree. */
  lemma {:induction false} ClosedLeft(l: Spine, t: Tree, sentinel: Node)
    requires sentinel !in SpineNodes(l) + Nodes(t) && SpineNodes(l) !! Nodes(t)
    requires LeftLinked(l, sentinel) && Linked(t) && Tip(l, sentinel).right == Root(t)
    ensures var c := CloseLeft(l, t);
            Linked(c) && sentinel.right == Root(c) && Nodes(c) == SpineNodes(l) + Nodes(t)
    decreases l
  {
    if l.Link? {
      var u := Bin(l.sub, l.node, t);
      assert Linked(u);
      ClosedLeft(l.rest, u, sentinel);
    }
  }

  lemma {:induction false} ClosedRight(r: Spine, t: Tree, sentinel: Node)
    requires sentinel !in SpineNodes(r) + Nodes(t) && SpineNodes(r) !! Nodes(t)
    requires RightLinked(r, sentinel) && Linked(t) && Tip(r, sentinel).left == Root(t)
    ensures var c := CloseRight(r, t);
            Linked(c) && sentinel.left == Root(c) && Nodes(c) == SpineNodes(r) + Nodes(t)
    decreases r
  {
    if r.Link? {
      var u := Bin(t, r.node, r.sub);
      assert Linked(u);
      ClosedRight(r.rest, u, sentinel);
    }
  }

  lemma {:induction false} NodesInOrder(t: Tree, n: Node)
    ensures n in Nodes(t) <==> n in InOrder(t)
  {
    if t.Bin? {
      NodesInOrder(t.left, n);
      NodesInOrder(t.right, n);
    }
  }

  lemma NodesAreValues(t: Tree)
    requires Sorted(InOrder(t))
    ensures Holds(Dict(InOrder(t)), Nodes(t))
  {
    forall n: Node ensures n in Nodes(t) <==> n in InOrder(t) {
      NodesInOrder(t, n);
    }
    HoldsIfSame(InOrder(t), Nodes(t));
  }

  /** Insertion in terms of the map and of the set of nodes. */
  lemma InsertNodes(t: Tree, n: Node)
    requires Sorted(InOrder(t))
    ensures var u, m := Insert(t, n), Dict(InOrder(t));
            && Sorted(InOrder(u)) && Dict(InOrder(u)) == (if n.key in m then m else m[n.key := n])
            && Nodes(u) == Nodes(t) + (if n.key in m then {} else {n})
  {
    var u := Insert(t, n);
    InsertCorrect(t, n);
    NodesAreValues(t);
    NodesAreValues(u);
    HoldsUpdate(Dict(InOrder(t)), Nodes(t), n, Dict(InOrder(u)), Nodes(u));
  }

  /** Removal in terms of the map and of the set of nodes. */
  lemma RemoveNodes(t: Tree, n: Node)
    requires Sorted(InOrder(t))
    ensures var u, m := Remove(t, n.key), Dict(InOrder(t));
            && Sorted(InOrder(u)) && Dict(InOrder(u)) == m - {n.key}
            && Nodes(u) == Nodes(t) - (if n.key in m then {m[n.key]} else {})
  {
    var u := Remove(t, n.key);
    RemoveCorrect(t, n.key);
    NodesAreValues(t);
    NodesAreValues(u);
    HoldsUpdate(Dict(InOrder(t)), Nodes(t), n, Dict(InOrder(u)), Nodes(u));
  }

  /** A node of the tree is what a splay for its key brings to the root. */
  lemma SplayReaches(t: Tree, n: Node)
    requires Sorted(InOrder(t)) && n in Nodes(t)
    ensures t.Bin? && SplayAt(Key(n.key), t).node == n
  {
    NodesInOrder(t, n);
    FindIsLookup(t, n.key);
  }

  lemma InsertKeeps(t: Tree, n: Node)
    requires Sorted(InOrder(t))
    ensures var u := Insert(t, n);
            && Sorted(InOrder(u)) && Nodes(u) <= Nodes(t) + {n}
            && (n in Nodes(t) ==> t.Bin? && SplayAt(Key(n.key), t).node == n)
  {
    InsertNodes(t, n);
    if n in Nodes(t) { SplayReaches(t, n); }
  }

  lemma RemoveKeeps(t: Tree, n: Node)
    requires Sorted(InOrder(t))
    ensures var u := Remove(t, n.key); Sorted(InOrder(u)) && Nodes(u) <= Nodes(t)
  {
    RemoveNodes(t, n);
  }

  class SplayTree {
    var root: Node?
    ghost var tree: Tree
    ghost var nodes: set<Node>

    ghost predicate Valid()
      reads this, nodes
    {
      nodes == Nodes(tree) && root == Root(tree) && Linked(tree) && Sorted(InOrder(tree))
    }

    // ---------- The macros ----------

    /** SPLAY_ROTATE_RIGHT */
    method RotateRight(tmp: Node, ghost l: Spine, ghost t: Tree, ghost r: Spine,
                       ghost sentinel: Node, ghost s: set<Node>)
      requires Pieces(l, t, r, sentinel, s) && root == Root(t)
      requires t.Bin? && t.left.Bin? && tmp == t.left.node
      modifies `root, t.node`left, tmp`right
      ensures Pieces(l, RotatedRight(t), r, sentinel, s) && root == tmp
    {
      assert Linked(t.left);
      root.left := tmp.right;
      tmp.right := root;
      root := tmp;
      assert Linked(RotatedRight(t).right);
    }

    /** SPLAY_ROTATE_LEFT */
    method RotateLeft(tmp: Node, ghost l: Spine, ghost t: Tree, ghost r: Spine,
                      ghost sentinel: Node, ghost s: set<Node>)
      requires Pieces(l, t, r, sentinel, s) && root == Root(t)
      requires t.Bin? && t.right.Bin? && tmp == t.right.node
      modifies `root, t.node`right, tmp`left
      ensures Pieces(l, RotatedLeft(t), r, sentinel, s) && root == tmp
    {
      assert Linked(t.right);
      root.right := tmp.left;
      tmp.left := root;
      root := tmp;
      assert Linked(RotatedLeft(t).left);
    }

    /** SPLAY_LINKLEFT: the root and its right subtree go to the right tree. */
    method LinkLeft(tip: Node, ghost l: Spine, ghost t: Tree, ghost r: Spine,
                    ghost sentinel: Node, ghost s: set<Node>)
      returns (tip': Node)
      requires Pieces(l, t, r, sentinel, s) && t.Bin? && root == t.node && tip == Tip(r, sentinel)
      modifies `root, tip`left
      ensures Pieces(l, t.left, Link(r, t.right, t.node), sentinel, s)
      ensures root == Root(t.left) && tip' == t.node
    {
      tip.left := root;
      tip' := root;
      root := root.left;
    }

    /** SPLAY_LINKRIGHT: the root and its left subtree go to the left tree. */
    method LinkRight(tip: Node, ghost l: Spine, ghost t: Tree, ghost r: Spine,
                     ghost sentinel: Node, ghost s: set<Node>)
      returns (tip': Node)
      requires Pieces(l, t, r, sentinel, s) && t.Bin? && root == t.node && tip == Tip(l, sentinel)
      modifies `root, tip`right
      ensures Pieces(Link(l, t.left, t.node), t.right, r, sentinel, s)
      ensures root == Root(t.right) && tip' == t.node
    {
      tip.right := root;
      tip' := root;
      root := root.right;
    }

    /** The first half of SPLAY_ASSEMBLE fills the two open links. */
    method CloseSides(node: Node, left: Node, right: Node,
                      ghost l: Spine, ghost t: Tree, ghost r: Spine, ghost s: set<Node>)
      requires Pieces(l, t, r, node, s) && t.Bin? && root == t.node
      requires left == Tip(l, node) && right == Tip(r, node)
      modifies left`right, right`left
      ensures var x, y := CloseLeft(l, t.left), CloseRight(r, t.right);
              && Linked(x) && Linked(y) && node.right == Root(x) && node.left == Root(y)
              && Nodes(x) == SpineNodes(l) + Nodes(t.left) && Nodes(y) == SpineNodes(r) + Nodes(t.right)
    {
      left.right := root.left;
      right.left := root.right;
      ClosedLeft(l, t.left, node);
      ClosedRight(r, t.right, node);
    }

    /** SPLAY_ASSEMBLE */
    method Assemble(node: Node, left: Node, right: Node,
                    ghost l: Spine, ghost t: Tree, ghost r: Spine, ghost s: set<Node>)
      requires Pieces(l, t, r, node, s) && t.Bin? && root == t.node
      requires left == Tip(l, node) && right == Tip(r, node)
      modifies left`right, right`left, t.node`left, t.node`right
      ensures Linked(Assembled(l, t, r)) && Nodes(Assembled(l, t, r)) <= s
    {
      CloseSides(node, left, right, l, t, r, s);
      root.left := node.right;
      root.right := node.left;
    }

    // ---------- Splaying ----------

    lemma SameNodes(t: Tree, u: Tree)
      requires InOrder(t) == InOrder(u)
      ensures Nodes(t) == Nodes(u)
    {
      forall n: Node ensures n in Nodes(t) <==> n in Nodes(u) {
        NodesInOrder(t, n);
        NodesInOrder(u, n);
      }
      SameElements(Nodes(t), Nodes(u));
    }

    lemma SameElements(a: set<Node>, b: set<Node>)
      requires forall n: Node :: n in a <==> n in b
      ensures a == b
    {
    }

    lemma SplayNodes(p: Probe, t: Tree)
      requires t.Bin?
      ensures Nodes(SplayAt(p, t)) == Nodes(t)
    {
      var u := SplayAt(p, t);
      SplayedOrder(p, End, t, End);
      assert InOrder(u) == InOrder(t);
      SameNodes(t, u);
    }

    /** One iteration of SPLAY when the key is below the root: the next open node of
        the right tree, and whether the loop is left. */
    method StepBelow(elm: Node, right: Node, ghost l: Spine, ghost t: Tree, ghost r: Spine,
                     ghost node: Node, ghost s: set<Node>)
      returns (right': Node, leave: bool, ghost t': Tree, ghost r': Spine)
      requires Pieces(l, t, r, node, s) && t.Bin? && root == t.node && right == Tip(r, node)
      requires Compare(Key(elm.key), t.node) < 0
      modifies `root, s, node`left
      ensures Pieces(l, t', r', node, s) && t'.Bin? && root == t'.node && right' == Tip(r', node)
      ensures Splayed(Key(elm.key), l, t, r)
           == if leave then Assembled(l, t', r') else Splayed(Key(elm.key), l, t', r')
      ensures Turns(Key(elm.key), t) == 1 + if leave then 0 else Turns(Key(elm.key), t')
      ensures !leave ==> t' < t
    {
      right', leave, t', r' := right, true, t, r;
      var tmp := root.left;
      if tmp == null {
        return;
      }
      if Cmp(elm, tmp) < 0 {
        RotateRight(tmp, l, t, r, node, s);
        t' := RotatedRight(t);
        if root.left == null {
          return;
        }
      }
      right' := LinkLeft(right', l, t', r, node, s);
      r', t' := Link(r, t'.right, t'.node), t'.left;
      leave := false;
    }

    /** The same when the key is above the root, for the left tree. */
    method StepAbove(elm: Node, left: Node, ghost l: Spine, ghost t: Tree, ghost r: Spine,
                     ghost node: Node, ghost s: set<Node>)
      returns (left': Node, leave: bool, ghost t': Tree, ghost l': Spine)
      requires Pieces(l, t, r, node, s) && t.Bin? && root == t.node && left == Tip(l, node)
      requires Compare(Key(elm.key), t.node) > 0
      modifies `root, s, node`right
      ensures Pieces(l', t', r, node, s) && t'.Bin? && root == t'.node && left' == Tip(l', node)
      ensures Splayed(Key(elm.key), l, t, r)
           == if leave then Assembled(l', t', r) else Splayed(Key(elm.key), l', t', r)
      ensures Turns(Key(elm.key), t) == 1 + if leave then 0 else Turns(Key(elm.key), t')
      ensures !leave ==> t' < t
    {
      left', leave, t', l' := left, true, t, l;
      var tmp := root.right;
      if tmp == null {
        return;
      }
      if Cmp(elm, tmp) > 0 {
        RotateLeft(tmp, l, t, r, node, s);
        t' := RotatedLeft(t);
        if root.right == null {
          return;
        }
      }
      left' := LinkRight(left', l, t', r, node, s);
      l', t' := Link(l, t'.left, t'.node), t'.right;
      leave := false;
    }

    /** The loop of SPLAY and what follows it, with the sentinel `node`; `turns` counts
        the iterations. */
    method SplayLoop(elm: Node, node: Node, ghost t: Tree, ghost s: set<Node>) returns (ghost turns: nat)
      requires t.Bin? && root == t.node && Pieces(End, t, End, node, s)
      modifies `root, s, node
      ensures var u := SplayAt(Key(elm.key), t); root == u.node && Linked(u)
      ensures turns == Turns(Key(elm.key), t)
    {
      ghost var p := Key(elm.key);
      var left, right := node, node;
      ghost var l, m, r := End, t, End;
      var comp := Cmp(elm, root);
      turns := 0;
      while comp != 0
        invariant Pieces(l, m, r, node, s) && left == Tip(l, node) && right == Tip(r, node)
        invariant m.Bin? && root == m.node && comp == Compare(p, m.node)
        invariant Splayed(p, l, m, r) == SplayAt(p, t) && turns + Turns(p, m) == Turns(p, t)
        decreases m
      {
        var leave := false;
        turns := turns + 1;
        if comp < 0 {
          right, leave, m, r := StepBelow(elm, right, l, m, r, node, s);
        } else if comp > 0 {
          left, leave, m, l := StepAbove(elm, left, l, m, r, node, s);
        }
        if leave { break; }
        comp := Cmp(elm, root);
      }
      Assemble(node, left, right, l, m, r, s);
    }

    /** SPLAY, for the tree or the subtree `t` that the root link holds. */
    method SplayLinks(elm: Node, ghost t: Tree, ghost s: set<Node>) returns (ghost turns: nat)
      requires t.Bin? && root == t.node && Linked(t) && Nodes(t) == s
      modifies `root, s
      ensures var u := SplayAt(Key(elm.key), t); root == u.node && Linked(u) && Nodes(u) == Nodes(t)
      ensures turns == Turns(Key(elm.key), t)
    {
      SplayNodes(Key(elm.key), t);
      var node := new Node(0);
      node.left, node.right := null, null;
      turns := SplayLoop(elm, node, t, s);
    }

    /** SPLAY_MINMAX, called with a nonzero argument. */
    method SplayMinMaxLinks(comp: int, ghost t: Tree, ghost s: set<Node>) returns (ghost turns: nat)
      requires t.Bin? && root == t.node && Linked(t) && Nodes(t) == s && comp != 0
      modifies `root, s
      ensures var u := SplayAt(if comp < 0 then LowEnd else HighEnd, t);
              root == u.node && Linked(u) && Nodes(u) == Nodes(t)
      ensures turns == Turns(if comp < 0 then LowEnd else HighEnd, t)
    {
      ghost var p := if comp < 0 then LowEnd else HighEnd;
      SplayNodes(p, t);
      var node := new Node(0);
      node.left, node.right := null, null;
      var left, right := node, node;
      ghost var l, m, r := End, t, End;
      turns := 0;
      while true
        invariant Pieces(l, m, r, node, s) && left == Tip(l, node) && right == Tip(r, node)
        invariant m.Bin? && root == m.node
        invariant Splayed(p, l, m, r) == SplayAt(p, t) && turns + Turns(p, m) == Turns(p, t)
        decreases m
      {
        turns := turns + 1;
        if comp < 0 {
          var tmp := root.left;
          if tmp == null {
            break;
          }
          if comp < 0 {
            RotateRight(tmp, l, m, r, node, s);
            m := RotatedRight(m);
            if root.left == null {
              break;
            }
          }
          right := LinkLeft(right, l, m, r, node, s);
          r, m := Link(r, m.right, m.node), m.left;
        } else if comp > 0 {
          var tmp := root.right;
          if tmp == null {
            break;
          }
          if comp > 0 {
            RotateLeft(tmp, l, m, r, node, s);
            m := RotatedLeft(m);
            if root.right == null {
              break;
            }
          }
          left := LinkRight(left, l, m, r, node, s);
          l, m := Link(l, m.left, m.node), m.right;
        }
      }
      assert Assembled(l, m, r) == SplayAt(p, t);
      Assemble(node, left, right, l, m, r, s);
    }

    // ---------- The operations ----------

    constructor ()
      ensures Valid() && tree == Nil
    {
      root := null;
      tree, nodes := Nil, {};
    }

    /** utils/tree.h:146-157 and 161: `elm` on top of the splayed tree, which is cut at the root. */
    method PutOnTop(elm: Node, comp: int, ghost u: Tree)
      requires u.Bin? && root == u.node && Linked(u) && elm !in Nodes(u) && comp != 0
      modifies `root, elm, u.node`left, u.node`right
      ensures root == elm
      ensures comp < 0 ==> Linked(Bin(u.left, elm, Bin(Nil, u.node, u.right)))
      ensures comp > 0 ==> Linked(Bin(Bin(u.left, u.node, Nil), elm, u.right))
    {
      if comp < 0 {
        elm.left := root.left;
        elm.right := root;
        root.left := null;
        assert Linked(Bin(Nil, u.node, u.right));
      } else {
        elm.right := root.right;
        elm.left := root;
        root.right := null;
        assert Linked(Bin(u.left, u.node, Nil));
      }
      root := elm;
    }

    /** The body of SPLAY_INSERT, on the links alone. */
    method InsertLinks(elm: Node, ghost t: Tree, ghost s: set<Node>) returns (ghost turns: nat)
      requires root == Root(t) && Linked(t) && Nodes(t) == s
      requires elm in s ==> t.Bin? && SplayAt(Key(elm.key), t).node == elm
      modifies `root, elm, s
      ensures root == Root(Insert(t, elm)) && Linked(Insert(t, elm))
      ensures turns == StepTurns(t, Put(elm))
    {
      turns := 0;
      if root == null {
        elm.left, elm.right := null, null;
        root := elm;
      } else {
        turns := SplayLinks(elm, t, s);
        var comp := Cmp(elm, root);
        if comp != 0 {
          PutOnTop(elm, comp, SplayAt(Key(elm.key), t));
        }
      }
    }

    method InsertKept(elm: Node) returns (ghost turns: nat)
      requires Valid()
      modifies this, elm, nodes
      ensures Valid() && tree == Insert(old(tree), elm)
      ensures turns == StepTurns(old(tree), Put(elm))
    {
      InsertKeeps(tree, elm);
      ghost var s, t := nodes + {elm}, Insert(tree, elm);
      turns := InsertLinks(elm, tree, nodes);
      assert forall n | n in s :: n as object != this;
      tree, nodes := t, Nodes(t);
    }

    /** SPLAY_INSERT. A node whose key is present already is not linked in. */
    method InsertNode(elm: Node) returns (ghost turns: nat)
      requires Valid()
      modifies this, elm, nodes
      ensures Valid() && tree == Insert(old(tree), elm)
      ensures turns == StepTurns(old(tree), Put(elm))
      ensures Dict(InOrder(tree)) == var m := old(Dict(InOrder(tree))); if elm.key in m then m else m[elm.key := elm]
      ensures nodes == old(nodes) + if elm.key in old(Dict(InOrder(tree))) then {} else {elm}
      ensures root == var m := old(Dict(InOrder(tree))); if elm.key in m then m[elm.key] else elm
    {
      InsertCorrect(tree, elm);
      InsertNodes(tree, elm);
      turns := InsertKept(elm);
    }

    /** utils/tree.h:172-182: the root of the splayed tree `u` is unlinked. */
    method JoinLinks(elm: Node, ghost u: Tree, ghost s: set<Node>) returns (ghost turns: nat)
      requires u.Bin? && root == u.node && Linked(u) && Nodes(u) == s
      modifies `root, s
      ensures var v := if u.left.Nil? then u.right
                       else var w := SplayAt(Key(elm.key), u.left); Bin(w.left, w.node, u.right);
              root == Root(v) && Linked(v)
      ensures turns == Turns(Key(elm.key), u.left)
    {
      turns := 0;
      if root.left == null {
        root := root.right;
      } else {
        var tmp := root.right;
        root := root.left;
        ghost var sl := Nodes(u.left);
        turns := SplayLinks(elm, u.left, sl);
        root.right := tmp;
      }
    }

    /** The body of SPLAY_REMOVE, on the links alone. */
    method RemoveLinks(elm: Node, ghost t: Tree, ghost s: set<Node>) returns (ghost turns: nat)
      requires root == Root(t) && Linked(t) && Nodes(t) == s
      modifies `root, s
      ensures root == Root(Remove(t, elm.key)) && Linked(Remove(t, elm.key))
      ensures turns == StepTurns(t, Delete(elm.key))
    {
      if root == null {
        return 0;
      }
      turns := SplayLinks(elm, t, s);
      if Cmp(elm, root) == 0 {
        ghost var again := JoinLinks(elm, SplayAt(Key(elm.key), t), s);
        turns := turns + again;
      }
    }

    method RemoveKept(elm: Node) returns (ghost turns: nat)
      requires Valid()
      modifies this, nodes
      ensures Valid() && tree == Remove(old(tree), elm.key)
      ensures turns == StepTurns(old(tree), Delete(elm.key))
    {
      RemoveKeeps(tree, elm);
      ghost var s, t := nodes, Remove(tree, elm.key);
      turns := RemoveLinks(elm, tree, s);
      assert forall n | n in s :: n as object != this;
      tree, nodes := t, Nodes(t);
    }

    /** SPLAY_REMOVE of the node with the key of `elm`, if there is one. */
    method RemoveNode(elm: Node) returns (ghost turns: nat)
      requires Valid()
      modifies this, nodes
      ensures Valid() && tree == Remove(old(tree), elm.key)
      ensures turns == StepTurns(old(tree), Delete(elm.key))
      ensures Dict(InOrder(tree)) == old(Dict(InOrder(tree))) - {elm.key}
      ensures nodes == old(var m := Dict(InOrder(tree)); nodes - if elm.key in m then {m[elm.key]} else {})
      ensures elm.key !in old(Dict(InOrder(tree))) && root != null ==> RootIsNear(Key(elm.key), tree)
      ensures var m := old(Dict(InOrder(tree)));
              elm.key in m && (exists j :: j in m && j < elm.key) ==> root != null && IsPredecessor(m, elm.key, root)
    {
      if root != null { RemoveRoot(tree, elm.key); }
      RemoveNodes(tree, elm);
      turns := RemoveKept(elm);
    }

    /** SPLAY_FIND */
    method FindNode(elm: Node) returns (r: Node?, ghost turns: nat)
      requires Valid()
      modifies this, nodes
      ensures Valid() && tree == Find(old(tree), elm.key).0 && InOrder(tree) == old(InOrder(tree))
      ensures r == Lookup(Dict(InOrder(tree)), elm.key) && (r != null ==> r == root)
      ensures root != null ==> RootIsNear(Key(elm.key), tree)
      ensures nodes == old(nodes) && turns == StepTurns(old(tree), Get(elm.key))
    {
      FindIsLookup(tree, elm.key);
      if root == null {
        return null, 0;
      }
      ghost var s := nodes;
      turns := SplayLinks(elm, tree, s);
      assert forall n | n in s :: n as object != this;
      tree := SplayAt(Key(elm.key), tree);
      if Cmp(elm, root) == 0 {
        return root, turns;
      }
      return null, turns;
    }

    /** SPLAY_MIN (`comp` < 0) and SPLAY_MAX (`comp` > 0) */
    method MinMaxNode(comp: int) returns (r: Node?, ghost turns: nat)
      requires Valid() && comp != 0
      modifies this, nodes
      ensures Valid() && tree == MinMax(old(tree), if comp < 0 then LowEnd else HighEnd).0
      ensures InOrder(tree) == old(InOrder(tree)) && nodes == old(nodes)
      ensures r == var q := InOrder(tree); if q == [] then null else if comp < 0 then q[0] else q[|q| - 1]
      ensures r != null ==> r == root && if comp < 0 then r.left == null else r.right == null
      ensures turns == StepTurns(old(tree), if comp < 0 then Least else Greatest)
    {
      MinMaxCorrect(tree, comp < 0);
      if root == null {
        return null, 0;
      }
      ghost var s := nodes;
      turns := SplayMinMaxLinks(comp, tree, s);
      assert forall n | n in s :: n as object != this;
      tree := SplayAt(if comp < 0 then LowEnd else HighEnd, tree);
      return root, turns;
    }

    /** SPLAY_NEXT of a node of the tree; the second loop takes `walk` iterations. */
    method NextNode(elm: Node) returns (r: Node?, ghost turns: nat, ghost walk: nat)
      requires Valid() && elm in nodes
      modifies this, nodes
      ensures Valid() && (tree, r) == Next(old(tree), elm.key)
      ensures InOrder(tree) == old(InOrder(tree)) && nodes == old(nodes)
      ensures IsNext(InOrder(tree), elm, r)
      ensures turns == Turns(Key(elm.key), old(tree)) && walk == Walk(tree.right)
    {
      NodesInOrder(tree, elm);
      NextCorrect(tree, elm);
      ghost var s := nodes;
      turns := SplayLinks(elm, tree, s);
      assert forall n | n in s :: n as object != this;
      tree := SplayAt(Key(elm.key), tree);
      walk := 0;
      if elm.right != null {
        r := elm.right;
        ghost var g := tree.right;
        while r.left != null
          invariant Valid() && root == elm && Linked(g) && g.Bin? && r == g.node
          invariant Leftmost(g) == Leftmost(tree.right) && walk + Walk(g) == Walk(tree.right)
          decreases g
        {
          walk := walk + 1;
          r := r.left;
          g := g.left;
        }
      } else {
        r := null;
      }
    }

    /** The start of SPLAY_FOREACH over `q`. */
    method Begin(ghost q: seq<Node>) returns (x: Node?, ghost turns: nat, ghost total: nat)
      requires Valid() && InOrder(tree) == q
      modifies this, nodes
      ensures Valid() && InOrder(tree) == q && nodes == old(nodes) && x == Head(q)
      ensures total == TraversalTurns(old(tree)) == turns + RestTurns(tree, q)
    {
      total := TraversalTurns(tree);
      x, turns := MinMaxNode(-1);
    }

    /** One iteration of SPLAY_FOREACH over `q`: `v` is visited, `rest` is not, and
        `x` is at its front. */
    method Advance(x: Node, ghost q: seq<Node>, ghost v: seq<Node>, ghost rest: seq<Node>)
      returns (next: Node?, ghost turns: nat)
      requires Valid() && InOrder(tree) == q && q == v + rest && x == Head(rest)
      modifies this, nodes
      ensures Valid() && InOrder(tree) == q && nodes == old(nodes)
      ensures q == (v + [x]) + rest[1..] && next == Head(rest[1..])
      ensures turns + RestTurns(tree, rest[1..]) == RestTurns(old(tree), rest)
    {
      assert q[|v|] == x && q[..|v|] == v;
      NodesInOrder(tree, x);
      ghost var walk;
      next, turns, walk := NextNode(x);
      VisitNext(q, v, x, next);
      turns := turns + walk;
    }

    method ForEachCounted() returns (visited: seq<Node>, ghost turns: nat)
      requires Valid()
      modifies this, nodes
      ensures Valid() && InOrder(tree) == old(InOrder(tree)) && nodes == old(nodes)
      ensures visited == InOrder(tree) && turns == TraversalTurns(old(tree))
    {
      ghost var q, s := InOrder(tree), nodes;
      visited := [];
      ghost var rest, more, total := q, 0, 0;
      var x;
      x, turns, total := Begin(q);
      while x != null
        invariant Valid() && InOrder(tree) == q && nodes == s
        invariant q == visited + rest && x == Head(rest)
        invariant turns + RestTurns(tree, rest) == total
        decreases |rest|
      {
        var next;
        next, more := Advance(x, q, visited, rest);
        visited, rest := visited + [x], rest[1..];
        turns := turns + more;
        x := next;
      }
    }

    /** SPLAY_FOREACH: every node once, in order, although each step splays. With the
        splays and walks of all steps, n nodes take O(n lg n) iterations. */
    method ForEach() returns (visited: seq<Node>, ghost turns: nat)
      requires Valid()
      modifies this, nodes
      ensures Valid() && InOrder(tree) == old(InOrder(tree)) && nodes == old(nodes)
      ensures visited == InOrder(tree)
      ensures turns == TraversalTurns(old(tree)) <= TraversalAllowance(|visited|)
    {
      TraversalWithin(tree);
      visited, turns := ForEachCounted();
    }

    /** One operation, as SplayDict has it, and the iterations of its splays. */
    method Perform(op: Op) returns (r: Node?, ghost turns: nat)
      requires Valid()
      modifies this, nodes, if op.Put? then {op.n} else {}
      ensures Valid() && (tree, r) == Step(old(tree), op) && turns == StepTurns(old(tree), op)
      ensures nodes <= old(nodes) + if op.Put? then {op.n} else {}
    {
      r := null;
      match op
      case Put(n) =>
        turns := InsertNode(n);
      case Delete(k) =>
        var probe := new Node(k);
        turns := RemoveNode(probe);
      case Get(k) =>
        var probe := new Node(k);
        FindIsLookup(tree, k);
        r, turns := FindNode(probe);
      case Least =>
        MinMaxCorrect(tree, true);
        r, turns := MinMaxNode(-1);
      case Greatest =>
        MinMaxCorrect(tree, false);
        r, turns := MinMaxNode(1);
    }

    /** One command, as SplayDict has it. */
    method Execute(c: Command) returns (r: Node?, ghost splays: nat, ghost walk: nat)
      requires Valid() && Sensible(Dict(InOrder(tree)), c)
      modifies this, nodes, if c.Do? && c.op.Put? then {c.op.n} else {}
      ensures Valid() && (tree, r) == Obey(old(tree), c)
      ensures splays == Splays(old(tree), c) && walk == WalkOf(old(tree), c)
      ensures nodes <= old(nodes) + if c.Do? && c.op.Put? then {c.op.n} else {}
    {
      match c
      case Do(op) =>
        walk := 0;
        r, splays := Perform(op);
      case Succ(n) =>
        NodesAreValues(tree);
        r, splays, walk := NextNode(n);
    }

    /** Any run of commands on the heap gives the answers of Run, hence by RunRefines
        those of a map, and takes the iterations of RunSplays and RunWalks. */
    method Replay(cs: seq<Command>) returns (rs: seq<Node?>, ghost splays: nat, ghost walks: nat)
      requires Valid() && SensibleRun(Dict(InOrder(tree)), cs)
      modifies this, nodes, (set c | c in cs && c.Do? && c.op.Put? :: c.op.n)
      ensures Valid() && (tree, rs) == Run(old(tree), cs)
      ensures splays == RunSplays(old(tree), cs) && walks == RunWalks(old(tree), cs)
      decreases |cs|
    {
      rs, splays, walks := [], 0, 0;
      if cs != [] {
        ObeyRefines(tree, cs[0]);
        var r;
        ghost var splay, walk;
        r, splay, walk := Execute(cs[0]);
        rs, splays, walks := Replay(cs[1..]);
        rs, splays, walks := [r] + rs, splay + splays, walk + walks;
      }
    }
  }

  /** On a new tree: the answers of a map; the Balance Theorem for the splays, and for
      everything when the successors that were asked for are followed. */
  method ReplayFromEmpty(cs: seq<Command>) returns (t: SplayTree, rs: seq<Node?>, ghost splays: nat, ghost walks: nat)
    requires SensibleRun(map[], cs)
    modifies (set c | c in cs && c.Do? && c.op.Put? :: c.op.n)
    ensures t.Valid() && (t.tree, rs) == Run(Nil, cs)
    ensures MapRunAnswers(map[], cs, rs) && Dict(InOrder(t.tree)) == MapRun(map[], cs)
    ensures splays <= |cs| * (8 * Log2(Puts(cs)) + 2)
    ensures Continued(map[], cs) ==> splays + walks <= 3 * ((|cs| + 1) * (8 * Log2(Puts(cs)) + 2))
  {
    SplaysFromEmpty(cs);
    ExtremeEnds([]);
    RunRefines(Nil, cs);
    if Continued(map[], cs) { BalanceTheorem(cs); }
    t := new SplayTree();
    rs, splays, walks := t.Replay(cs);
  }
}
