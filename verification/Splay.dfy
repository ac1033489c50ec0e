/** Top-down splaying as a function of the tree: the tree is taken apart into a left
    tree, a middle and a right tree, and put together again with the wanted key, or a
    neighbour of it, at the root. SplayTree.dfy computes this on the heap. */
module Splay {
  import opened Elements
  import opened Dictionary

  datatype Tree = Nil | Bin(left: Tree, node: Node, right: Tree)

  /** A side tree with one open link. As a left tree, `node` has `sub` on its left,
      is itself the right child of the last node of `rest`, and its right link is
      open; a right tree is the mirror image. */
  datatype Spine = End | Link(rest: Spine, sub: Tree, node: Node)

  /** What is searched for: a key, or one of the two ends. */
  datatype Probe = LowEnd | Key(k: int) | HighEnd

  /** The sign that the comparison with node `n` has. */
  function Compare(p: Probe, n: Node): int {
    match p
    case LowEnd => -1
    case HighEnd => 1
    case Key(k) => if k < n.key then -1 else if k > n.key then 1 else 0
  }

  ghost predicate AllBelow(s: seq<Node>, p: Probe) {
    forall x | x in s :: Compare(p, x) > 0
  }

  ghost predicate AllAbove(p: Probe, s: seq<Node>) {
    forall x | x in s :: Compare(p, x) < 0
  }

  // ---------- Contents in order ----------

  function InOrder(t: Tree): seq<Node> {
    if t.Nil? then [] else InOrder(t.left) + [t.node] + InOrder(t.right)
  }

  function LeftOrder(l: Spine): seq<Node> {
    if l.End? then [] else LeftOrder(l.rest) + InOrder(l.sub) + [l.node]
  }

  function RightOrder(r: Spine): seq<Node> {
    if r.End? then [] else [r.node] + InOrder(r.sub) + RightOrder(r.rest)
  }

  /** The open link of a left tree closed with `t`. */
  function CloseLeft(l: Spine, t: Tree): Tree
    decreases l
  {
    if l.End? then t else CloseLeft(l.rest, Bin(l.sub, l.node, t))
  }

  function CloseRight(r: Spine, t: Tree): Tree
    decreases r
  {
    if r.End? then t else CloseRight(r.rest, Bin(t, r.node, r.sub))
  }

  lemma {:induction false} CloseLeftOrder(l: Spine, t: Tree)
    ensures InOrder(CloseLeft(l, t)) == LeftOrder(l) + InOrder(t)
    decreases l
  {
    if l.Link? {
      CloseLeftOrder(l.rest, Bin(l.sub, l.node, t));
    }
  }

  lemma {:induction false} CloseRightOrder(r: Spine, t: Tree)
    ensures InOrder(CloseRight(r, t)) == InOrder(t) + RightOrder(r)
    decreases r
  {
    if r.Link? {
      CloseRightOrder(r.rest, Bin(t, r.node, r.sub));
    }
  }

  // ---------- The splay loop ----------

  function RotatedRight(t: Tree): Tree
    requires t.Bin? && t.left.Bin?
  {
    Bin(t.left.left, t.left.node, Bin(t.left.right, t.node, t.right))
  }

  function RotatedLeft(t: Tree): Tree
    requires t.Bin? && t.right.Bin?
  {
    Bin(Bin(t.left, t.node, t.right.left), t.right.node, t.right.right)
  }

  function Assembled(l: Spine, t: Tree, r: Spine): Tree
    requires t.Bin?
  {
    Bin(CloseLeft(l, t.left), t.node, CloseRight(r, t.right))
  }

  /** The loop from the state with left tree `l`, middle `t` and right tree `r`. */
  function Splayed(p: Probe, l: Spine, t: Tree, r: Spine): (res: Tree)
    requires t.Bin?
    ensures res.Bin?
    decreases t
  {
    var comp := Compare(p, t.node);
    if comp < 0 then
      if t.left.Nil? then Assembled(l, t, r)
      else if Compare(p, t.left.node) < 0 then
        var u := RotatedRight(t);
        if u.left.Nil? then Assembled(l, u, r) else Splayed(p, l, u.left, Link(r, u.right, u.node))
      else Splayed(p, l, t.left, Link(r, t.right, t.node))
    else if comp > 0 then
      if t.right.Nil? then Assembled(l, t, r)
      else if Compare(p, t.right.node) > 0 then
        var u := RotatedLeft(t);
        if u.right.Nil? then Assembled(l, u, r) else Splayed(p, Link(l, u.left, u.node), u.right, r)
      else Splayed(p, Link(l, t.left, t.node), t.right, r)
    else Assembled(l, t, r)
  }

  function SplayAt(p: Probe, t: Tree): (r: Tree)
    requires t.Bin?
    ensures r.Bin?
  {
    Splayed(p, End, t, End)
  }

  /** How often the loop body is entered, from the middle `t`. */
  function Turns(p: Probe, t: Tree): nat
    decreases t
  {
    if t.Nil? then 0
    else
      var comp := Compare(p, t.node);
      if comp < 0 && t.left.Bin? then
        1 + Turns(p, if Compare(p, t.left.node) < 0 then t.left.left else t.left)
      else if comp > 0 && t.right.Bin? then
        1 + Turns(p, if Compare(p, t.right.node) > 0 then t.right.right else t.right)
      else if comp == 0 then 0 else 1
  }

  /** The same without side trees: what is below the wanted node is brought up first,
      and the nodes passed on the way are hung below it, two at a time if they lie on
      the same side. */
  function BroughtUp(p: Probe, t: Tree): (r: Tree)
    requires t.Bin?
    ensures r.Bin?
    decreases t
  {
    var comp := Compare(p, t.node);
    if comp < 0 && t.left.Bin? then
      var y := t.left;
      if Compare(p, y.node) >= 0 then
        var z := BroughtUp(p, y);
        Bin(z.left, z.node, Bin(z.right, t.node, t.right))
      else
        var below := Bin(y.right, t.node, t.right);
        if y.left.Nil? then Bin(Nil, y.node, below)
        else
          var z := BroughtUp(p, y.left);
          Bin(z.left, z.node, Bin(z.right, y.node, below))
    else if comp > 0 && t.right.Bin? then
      var y := t.right;
      if Compare(p, y.node) <= 0 then
        var z := BroughtUp(p, y);
        Bin(Bin(t.left, t.node, z.left), z.node, z.right)
      else
        var below := Bin(t.left, t.node, y.left);
        if y.right.Nil? then Bin(below, y.node, Nil)
        else
          var z := BroughtUp(p, y.right);
          Bin(Bin(below, y.node, z.left), z.node, z.right)
    else t
  }

  lemma {:induction false} SplayedIsBroughtUp(p: Probe, l: Spine, t: Tree, r: Spine)
    requires t.Bin?
    ensures var s := BroughtUp(p, t);
            Splayed(p, l, t, r) == Bin(CloseLeft(l, s.left), s.node, CloseRight(r, s.right))
    decreases t
  {
    var comp := Compare(p, t.node);
    if comp < 0 && t.left.Bin? {
      var u := if Compare(p, t.left.node) < 0 then RotatedRight(t) else t;
      if u.left.Bin? { SplayedIsBroughtUp(p, l, u.left, Link(r, u.right, u.node)); }
    } else if comp > 0 && t.right.Bin? {
      var u := if Compare(p, t.right.node) > 0 then RotatedLeft(t) else t;
      if u.right.Bin? { SplayedIsBroughtUp(p, Link(l, u.left, u.node), u.right, r); }
    }
  }

  /** The loop with its two side trees gives the tree of the recursion. */
  lemma SplayIsBroughtUp(p: Probe, t: Tree)
    requires t.Bin?
    ensures SplayAt(p, t) == BroughtUp(p, t)
  {
    SplayedIsBroughtUp(p, End, t, End);
  }

  lemma RotateOrder(t: Tree)
    requires t.Bin?
    ensures t.left.Bin? ==> InOrder(RotatedRight(t)) == InOrder(t)
    ensures t.right.Bin? ==> InOrder(RotatedLeft(t)) == InOrder(t)
  {
    if t.left.Bin? {
      SplitThree(InOrder(t.left.left), t.left.node, InOrder(t.left.right), t.node, InOrder(t.right));
    }
    if t.right.Bin? {
      SplitThree(InOrder(t.left), t.node, InOrder(t.right.left), t.right.node, InOrder(t.right.right));
    }
  }

  lemma AssembledOrder(l: Spine, t: Tree, r: Spine)
    requires t.Bin?
    ensures InOrder(Assembled(l, t, r)) == LeftOrder(l) + InOrder(t) + RightOrder(r)
  {
    CloseLeftOrder(l, t.left);
    CloseRightOrder(r, t.right);
    Regroup(LeftOrder(l), InOrder(t.left), t.node, InOrder(t.right), RightOrder(r));
  }

  lemma Regroup(a: seq<Node>, b: seq<Node>, x: Node, d: seq<Node>, e: seq<Node>)
    ensures (a + b) + [x] + (d + e) == a + (b + [x] + d) + e
  {
  }

  /** Moving the root and one side over to a side tree changes nothing in order. */
  lemma LinkOrder(l: Spine, t: Tree, r: Spine)
    requires t.Bin?
    ensures LeftOrder(l) + InOrder(t.left) + RightOrder(Link(r, t.right, t.node))
         == LeftOrder(l) + InOrder(t) + RightOrder(r)
    ensures LeftOrder(Link(l, t.left, t.node)) + InOrder(t.right) + RightOrder(r)
         == LeftOrder(l) + InOrder(t) + RightOrder(r)
  {
    LinkRegroup(LeftOrder(l), InOrder(t.left), t.node, InOrder(t.right), RightOrder(r));
  }

  lemma LinkRegroup(a: seq<Node>, b: seq<Node>, x: Node, d: seq<Node>, e: seq<Node>)
    ensures a + b + ([x] + d + e) == a + (b + [x] + d) + e
    ensures (a + b + [x]) + d + e == a + (b + [x] + d) + e
  {
  }

  /** Through every rotation and link, left tree + middle + right tree stay the same
      sequence, and so does the assembled tree. */
  lemma {:induction false} SplayedOrder(p: Probe, l: Spine, t: Tree, r: Spine)
    requires t.Bin?
    ensures InOrder(Splayed(p, l, t, r)) == LeftOrder(l) + InOrder(t) + RightOrder(r)
    decreases t
  {
    RotateOrder(t);
    AssembledOrder(l, t, r);
    LinkOrder(l, t, r);
    var comp := Compare(p, t.node);
    if comp < 0 && t.left.Bin? {
      if Compare(p, t.left.node) < 0 {
        var u := RotatedRight(t);
        AssembledOrder(l, u, r);
        LinkOrder(l, u, r);
        if u.left.Bin? { SplayedOrder(p, l, u.left, Link(r, u.right, u.node)); }
      } else {
        SplayedOrder(p, l, t.left, Link(r, t.right, t.node));
      }
    } else if comp > 0 && t.right.Bin? {
      if Compare(p, t.right.node) > 0 {
        var u := RotatedLeft(t);
        AssembledOrder(l, u, r);
        LinkOrder(l, u, r);
        if u.right.Bin? { SplayedOrder(p, Link(l, u.left, u.node), u.right, r); }
      } else {
        SplayedOrder(p, Link(l, t.left, t.node), t.right, r);
      }
    }
  }

  /** The root holds the probe, or nothing lies between the probe and the root. */
  ghost predicate RootIsNear(p: Probe, t: Tree)
    requires t.Bin?
  {
    var comp := Compare(p, t.node);
    && (comp < 0 ==> AllBelow(InOrder(t.left), p))
    && (comp > 0 ==> AllAbove(p, InOrder(t.right)))
  }

  lemma AssembledNear(p: Probe, l: Spine, t: Tree, r: Spine)
    requires t.Bin? && AllBelow(LeftOrder(l), p) && AllAbove(p, RightOrder(r))
    requires RootIsNear(p, t)
    ensures RootIsNear(p, Assembled(l, t, r))
  {
    CloseLeftOrder(l, t.left);
    CloseRightOrder(r, t.right);
  }

  lemma LinkNear(p: Probe, l: Spine, t: Tree, r: Spine)
    requires t.Bin? && AllBelow(LeftOrder(l), p) && AllAbove(p, RightOrder(r))
    requires Sorted(InOrder(t))
    ensures Sorted(InOrder(t.left)) && Sorted(InOrder(t.right))
    ensures Compare(p, t.node) < 0 ==> AllAbove(p, RightOrder(Link(r, t.right, t.node)))
    ensures Compare(p, t.node) > 0 ==> AllBelow(LeftOrder(Link(l, t.left, t.node)), p)
  {
    SortedConcat(InOrder(t.left), t.node, InOrder(t.right));
  }

  lemma {:induction false} SplayedNear(p: Probe, l: Spine, t: Tree, r: Spine)
    requires t.Bin? && AllBelow(LeftOrder(l), p) && AllAbove(p, RightOrder(r))
    requires Sorted(InOrder(t))
    ensures RootIsNear(p, Splayed(p, l, t, r))
    decreases t
  {
    RotateOrder(t);
    LinkNear(p, l, t, r);
    var comp := Compare(p, t.node);
    if comp < 0 && t.left.Bin? {
      if Compare(p, t.left.node) < 0 {
        var u := RotatedRight(t);
        LinkNear(p, l, u, r);
        if u.left.Bin? {
          SplayedNear(p, l, u.left, Link(r, u.right, u.node));
        } else {
          AssembledNear(p, l, u, r);
        }
      } else {
        SplayedNear(p, l, t.left, Link(r, t.right, t.node));
      }
    } else if comp > 0 && t.right.Bin? {
      if Compare(p, t.right.node) > 0 {
        var u := RotatedLeft(t);
        LinkNear(p, l, u, r);
        if u.right.Bin? {
          SplayedNear(p, Link(l, u.left, u.node), u.right, r);
        } else {
          AssembledNear(p, l, u, r);
        }
      } else {
        SplayedNear(p, Link(l, t.left, t.node), t.right, r);
      }
    } else {
      AssembledNear(p, l, t, r);
    }
  }

  /** Splaying keeps the contents and brings the probe, or a neighbour, to the root. */
  lemma SplayCorrect(p: Probe, t: Tree)
    requires t.Bin? && Sorted(InOrder(t))
    ensures InOrder(SplayAt(p, t)) == InOrder(t)
    ensures RootIsNear(p, SplayAt(p, t))
  {
    SplayedOrder(p, End, t, End);
    SplayedNear(p, End, t, End);
  }
}
