/** The red-black operations as functions of the tree, and what they mean: a finite
    map from keys to nodes, over any run of operations, in a tree of bounded height. */
module RedBlackDict {
  import opened Elements
  import opened Dictionary
  import opened RedBlack
  import opened Powers

  ghost predicate Good(t: Tree) {
    ValidRB(t) && Sorted(InOrder(t))
  }

  // ---------- Descent ----------

  /** The descent shared by insertion and lookup: it ends at the node with key `k`
      or at the empty place where that key belongs. */
  function Search(c: Ctx, t: Tree, k: int): (r: (Ctx, Tree))
    ensures Plug(r.0, r.1) == Plug(c, t)
    ensures r.1.Bin? ==> r.1.node.key == k
    decreases t
  {
    if t.Nil? || t.node.key == k then (c, t)
    else if k < t.node.key then Search(InLeft(c, t.node, t.color, t.right), t.left, k)
    else Search(InRight(c, t.left, t.node, t.color), t.right, k)
  }

  lemma {:induction false} SearchBounds(c: Ctx, t: Tree, k: int)
    requires Sorted(InOrder(t)) && Below(Before(c), k) && Above(k, After(c))
    ensures var (d, f) := Search(c, t, k); Below(Before(d), k) && Above(k, After(d))
    decreases t
  {
    if t.Bin? && t.node.key != k {
      SortedConcat(InOrder(t.left), t.node, InOrder(t.right));
      if k < t.node.key {
        SearchBounds(InLeft(c, t.node, t.color, t.right), t.left, k);
      } else {
        SearchBounds(InRight(c, t.left, t.node, t.color), t.right, k);
      }
    }
  }

  function Root(t: Tree): Node? {
    if t.Nil? then null else t.node
  }

  function Find(t: Tree, k: int): Node? {
    Root(Search(Top, t, k).1)
  }

  /** Lookup by descent agrees with the map, for present and for absent keys. */
  lemma FindIsLookup(t: Tree, k: int)
    requires Sorted(InOrder(t))
    ensures Find(t, k) == Lookup(Dict(InOrder(t)), k)
  {
    var (d, f) := Search(Top, t, k);
    SearchBounds(Top, t, k);
    PlugOrder(d, f);
    var s := InOrder(t);
    if f.Bin? {
      assert s[|Before(d)| + |InOrder(f.left)|] == f.node;
    }
  }

  // ---------- Insertion ----------

  lemma LeafFits(t: Tree, n: Node)
    requires ValidRB(t)
    ensures var (c, f) := Search(Top, t, n.key); f.Nil? ==> InsHole(c, Bin(Nil, n, Red, Nil))
  {
    var (c, f) := Search(Top, t, n.key);
    PlugValid(c, f);
  }

  function Insert(t: Tree, n: Node): Tree
    requires ValidRB(t)
  {
    var (c, f) := Search(Top, t, n.key);
    LeafFits(t, n);
    if f.Bin? then t else InsFix(c, Bin(Nil, n, Red, Nil))
  }

  /** What is in the tree around the place where the descent for `k` ends. */
  lemma SearchOrder(t: Tree, k: int, g: Tree)
    requires Sorted(InOrder(t))
    ensures var (c, f) := Search(Top, t, k); var a, b := Before(c), After(c);
            && Below(a, k) && Above(k, b)
            && InOrder(t) == a + InOrder(f) + b
            && InOrder(Plug(c, g)) == a + InOrder(g) + b
  {
    SearchBounds(Top, t, k);
    var (c, f) := Search(Top, t, k);
    PlugOrder(c, f);
    PlugOrder(c, g);
  }

  /** Insertion keeps a good tree good; it adds exactly the new node under a new key
      and leaves the tree as it is when the key is present. */
  lemma InsertCorrect(t: Tree, n: Node)
    requires Good(t)
    ensures Good(Insert(t, n))
    ensures var m := Dict(InOrder(t));
            if n.key in m then Insert(t, n) == t
            else Dict(InOrder(Insert(t, n))) == m[n.key := n]
  {
    var (c, f) := Search(Top, t, n.key);
    FindIsLookup(t, n.key);
    if f.Nil? {
      LeafFits(t, n);
      var leaf := Bin(Nil, n, Red, Nil);
      SearchOrder(t, n.key, leaf);
      InsFixCorrect(c, leaf);
      InsertOrder(Before(c), n, After(c), InOrder(t), InOrder(Insert(t, n)));
    }
  }

  lemma InsertOrder(a: seq<Node>, n: Node, b: seq<Node>, s: seq<Node>, s': seq<Node>)
    requires s == a + [] + b && s' == a + ([] + [n] + []) + b
    requires Sorted(s) && Below(a, n.key) && Above(n.key, b)
    ensures Sorted(s') && Dict(s') == Dict(s)[n.key := n]
  {
    assert s == a + b && s' == a + [n] + b;
    DictInsert(a, n, b);
  }

  // ---------- Removal ----------

  /** Removal of the node with key `k`, which is in the tree. */
  function Remove(t: Tree, k: int): Tree
    requires ValidRB(t) && Find(t, k) != null
  {
    var (c, f) := Search(Top, t, k);
    RemoveAt(c, f)
  }

  function RemoveAt(c: Ctx, f: Tree): Tree
    requires f.Bin? && ValidRB(Plug(c, f))
  {
    UnlinkSafe(c, f);
    var (d, g, k) := Unlink(c, f);
    CutFix(d, g, k)
  }

  lemma RemoveAtCorrect(c: Ctx, f: Tree)
    requires f.Bin? && ValidRB(Plug(c, f))
    ensures ValidRB(RemoveAt(c, f))
    ensures InOrder(RemoveAt(c, f)) == Before(c) + InOrder(f.left) + InOrder(f.right) + After(c)
  {
    UnlinkSafe(c, f);
    UnlinkOrder(c, f);
    var (d, g, k) := Unlink(c, f);
    if k.Black? { RemFixCorrect(d, g); }
  }

  lemma RemoveOrder(a: seq<Node>, l: seq<Node>, n: Node, r: seq<Node>, b: seq<Node>)
    requires Sorted(a + (l + [n] + r) + b)
    ensures Sorted(a + l + r + b)
    ensures Dict(a + l + r + b) == Dict(a + (l + [n] + r) + b) - {n.key}
  {
    assert a + (l + [n] + r) + b == (a + l) + [n] + (r + b);
    assert a + l + r + b == (a + l) + (r + b);
    DictRemove(a + l, n, r + b);
  }

  /** Removal keeps a good tree good and takes out exactly that node. */
  lemma RemoveCorrect(t: Tree, k: int)
    requires Good(t) && Find(t, k) != null
    ensures Good(Remove(t, k))
    ensures Dict(InOrder(Remove(t, k))) == Dict(InOrder(t)) - {k}
  {
    var (c, f) := Search(Top, t, k);
    RemoveAtCorrect(c, f);
    PlugOrder(c, f);
    RemoveOrder(Before(c), InOrder(f.left), f.node, InOrder(f.right), After(c));
  }

  // ---------- Minimum and maximum ----------

  function MinMax(t: Tree, val: int): Node? {
    if t.Nil? then null
    else
      var next := if val < 0 then t.left else t.right;
      if next.Nil? then t.node else MinMax(next, val)
  }

  lemma {:induction false} MinMaxIsEnd(t: Tree, val: int)
    ensures MinMax(t, val) == var s := InOrder(t);
              if s == [] then null else if val < 0 then s[0] else s[|s| - 1]
  {
    if t.Bin? {
      MinMaxIsEnd(t.left, val);
      MinMaxIsEnd(t.right, val);
    }
  }

  // ---------- Height ----------

  function Height(t: Tree): nat {
    if t.Nil? then 0
    else 1 + if Height(t.left) < Height(t.right) then Height(t.right) else Height(t.left)
  }

  lemma {:induction false} HeightByBlack(t: Tree)
    requires Balanced(t)
    ensures Height(t) <= 2 * BlackHeight(t) + (if IsRed(t) then 1 else 0)
    ensures Pow2(BlackHeight(t)) <= |InOrder(t)| + 1
  {
    if t.Bin? {
      HeightByBlack(t.left);
      HeightByBlack(t.right);
    }
  }

  /** The header's bound, height <= 2 lg (n + 1), with the logarithm cleared. */
  lemma HeightBound(t: Tree)
    requires ValidRB(t)
    ensures Pow2(Height(t)) <= (|InOrder(t)| + 1) * (|InOrder(t)| + 1)
  {
    HeightByBlack(t);
    var b, n := BlackHeight(t), |InOrder(t)| + 1;
    Pow2Monotone(Height(t), b + b);
    Pow2Add(b, b);
    SquareMonotone(Pow2(b), n);
  }

  /** The same with the logarithm rounded down. */
  lemma HeightLog(t: Tree)
    requires ValidRB(t)
    ensures Height(t) <= 2 * Log2(|InOrder(t)| + 1)
  {
    HeightByBlack(t);
    LogIsLargest(BlackHeight(t), |InOrder(t)| + 1);
  }

  /** Above and below any cut there is no more than the height of the whole. */
  lemma {:induction false} PlugHeight(c: Ctx, f: Tree)
    ensures Depth(c) + Height(f) <= Height(Plug(c, f))
    decreases c
  {
    if !c.Top? { PlugHeight(c.up, Fill(c, f)); }
  }

  lemma {:induction false} DepthOver(i: Ctx, outer: Ctx)
    ensures Depth(Over(i, outer)) == Depth(i) + Depth(outer)
  {
    if !i.Top? { DepthOver(i.up, outer); }
  }

  /** The descent to the successor and the climb of the repair after it are no longer
      than the tree is high. */
  lemma UnlinkDepth(c: Ctx, t: Tree)
    requires t.Bin?
    ensures Depth(Unlink(c, t).0) <= Height(Plug(c, t))
    ensures t.left.Bin? && t.right.Bin? ==> Depth(Leftmost(Top, t.right).0) <= Height(Plug(c, t))
  {
    PlugHeight(c, t);
    if t.left.Bin? && t.right.Bin? {
      var (i, s) := Leftmost(Top, t.right);
      PlugHeight(i, s);
      DepthOver(i, InRight(c, t.left, s.node, t.color));
    }
  }

  // ---------- What a traversal costs ----------

  /** The iterations of RB_MINMAX. */
  function EndSteps(t: Tree, val: int): nat {
    if t.Nil? then 0 else 1 + EndSteps(if val < 0 then t.left else t.right, val)
  }

  /** How far up the way to the hole consists of right links. */
  function Climb(c: Ctx): nat {
    if c.InRight? then 1 + Climb(c.up) else 0
  }

  /** The iterations of RB_NEXT at the root of `f`. */
  function NextSteps(c: Ctx, f: Tree): nat
    requires f.Bin?
  {
    if f.right.Bin? then EndSteps(f.right, -1) - 1 else Climb(c)
  }

  function StepsAfter(c: Ctx, f: Tree, k: int): nat {
    var (d, g) := Search(c, f, k);
    if g.Bin? then NextSteps(d, g) else 0
  }

  function SumSteps(c: Ctx, f: Tree, q: seq<Node>): nat
    decreases |q|
  {
    if q == [] then 0 else StepsAfter(c, f, q[0].key) + SumSteps(c, f, q[1..])
  }

  lemma {:induction false} SumConcat(c: Ctx, f: Tree, a: seq<Node>, b: seq<Node>)
    ensures SumSteps(c, f, a + b) == SumSteps(c, f, a) + SumSteps(c, f, b)
    decreases |a|
  {
    if a == [] {
      assert a + b == b;
    } else {
      SumConcat(c, f, a[1..], b);
      assert (a + b)[1..] == a[1..] + b;
    }
  }

  lemma {:induction false} SumBelow(c: Ctx, f: Tree, q: seq<Node>)
    requires f.Bin? && Below(q, f.node.key)
    ensures SumSteps(c, f, q) == SumSteps(InLeft(c, f.node, f.color, f.right), f.left, q)
    decreases |q|
  {
    if q != [] { SumBelow(c, f, q[1..]); }
  }

  lemma {:induction false} SumAbove(c: Ctx, f: Tree, q: seq<Node>)
    requires f.Bin? && Above(f.node.key, q)
    ensures SumSteps(c, f, q) == SumSteps(InRight(c, f.left, f.node, f.color), f.right, q)
    decreases |q|
  {
    if q != [] { SumAbove(c, f, q[1..]); }
  }

  /** At the root of `f` the sum splits into those of the subtrees. */
  lemma SumAtRoot(c: Ctx, f: Tree)
    requires f.Bin? && Sorted(InOrder(f))
    ensures Sorted(InOrder(f.left)) && Sorted(InOrder(f.right))
    ensures SumSteps(c, f, InOrder(f))
         == SumSteps(InLeft(c, f.node, f.color, f.right), f.left, InOrder(f.left)) + NextSteps(c, f)
            + SumSteps(InRight(c, f.left, f.node, f.color), f.right, InOrder(f.right))
  {
    var a, n, b := InOrder(f.left), f.node, InOrder(f.right);
    SortedConcat(a, n, b);
    SumConcat(c, f, a + [n], b);
    SumConcat(c, f, a, [n]);
    SumBelow(c, f, a);
    SumAbove(c, f, b);
    assert SumSteps(c, f, [n]) == NextSteps(c, f) by {
      assert [n][1..] == [];
    }
  }

  /** A traversal goes down each left link and up each right link once. */
  lemma {:induction false} TraversalSteps(c: Ctx, f: Tree)
    requires Sorted(InOrder(f))
    ensures EndSteps(f, -1) + SumSteps(c, f, InOrder(f)) == |InOrder(f)| + if f.Bin? then Climb(c) else 0
    decreases f
  {
    if f.Bin? {
      SumAtRoot(c, f);
      TraversalSteps(InLeft(c, f.node, f.color, f.right), f.left);
      TraversalSteps(InRight(c, f.left, f.node, f.color), f.right);
    }
  }

  /** What a traversal of the whole tree still takes before the nodes `rest`. */
  function RestSteps(t: Tree, rest: seq<Node>): nat {
    SumSteps(Top, t, rest)
  }

  // ---------- Runs ----------

  /** `Delete` is RB_FIND followed by RB_REMOVE of what it found. */
  function Step(t: Tree, op: Op): (Tree, Node?)
    requires ValidRB(t)
  {
    match op
    case Put(n) => (Insert(t, n), Find(t, n.key))
    case Delete(k) => (if Find(t, k) == null then t else Remove(t, k), Find(t, k))
    case Get(k) => (t, Find(t, k))
    case Least => (t, MinMax(t, -1))
    case Greatest => (t, MinMax(t, 1))
  }

  /** The leftmost node answers for the least key, the rightmost for the greatest. */
  lemma MinMaxIsExtreme(t: Tree, val: int)
    requires Sorted(InOrder(t)) && (val == -1 || val == 1)
    ensures IsExtreme(Dict(InOrder(t)), MinMax(t, val), val)
  {
    MinMaxIsEnd(t, val);
    ExtremeEnds(InOrder(t));
  }

  lemma DeleteRefines(t: Tree, k: int)
    requires Good(t)
    ensures var t' := Step(t, Delete(k)).0; Good(t') && Dict(InOrder(t')) == Dict(InOrder(t)) - {k}
  {
    FindIsLookup(t, k);
    if Find(t, k) != null { RemoveCorrect(t, k); }
  }

  /** Every operation keeps the tree good and does to it, and answers, what it would
      on the map that the tree stands for. */
  lemma StepRefines(t: Tree, op: Op)
    requires Good(t)
    ensures var (t', r) := Step(t, op); var m := Dict(InOrder(t));
            Good(t') && Dict(InOrder(t')) == DictNext(m, op) && DictAnswers(m, op, r, false)
  {
    match op
    case Put(n) => InsertCorrect(t, n); FindIsLookup(t, n.key);
    case Delete(k) => DeleteRefines(t, k); FindIsLookup(t, k);
    case Get(k) => FindIsLookup(t, k);
    case Least => MinMaxIsExtreme(t, -1);
    case Greatest => MinMaxIsExtreme(t, 1);
  }

  /** The tree and the answers after a run of operations. */
  ghost function Run(t: Tree, ops: seq<Op>): (Tree, seq<Node?>)
    requires Good(t)
    decreases |ops|
  {
    if ops == [] then (t, [])
    else
      StepRefines(t, ops[0]);
      var (t', r) := Step(t, ops[0]);
      var (t'', rs) := Run(t', ops[1..]);
      (t'', [r] + rs)
  }

  lemma RunUnfolds(t: Tree, ops: seq<Op>)
    requires Good(t) && ops != []
    ensures var (u, r) := Step(t, ops[0]);
            Good(u) && Run(t, ops) == (Run(u, ops[1..]).0, [r] + Run(u, ops[1..]).1)
  {
    StepRefines(t, ops[0]);
  }

  /** Over any run, the answers are those of the map and the final tree is good,
      stands for the final map and is as shallow as the header says. */
  lemma {:induction false} RunRefines(t: Tree, ops: seq<Op>)
    requires Good(t)
    ensures var (t', rs) := Run(t, ops); var m := Dict(InOrder(t));
            && Good(t') && Dict(InOrder(t')) == DictRun(m, ops)
            && DictRunAnswers(m, ops, rs, false)
            && Pow2(Height(t')) <= (|InOrder(t')| + 1) * (|InOrder(t')| + 1)
    decreases |ops|
  {
    if ops == [] {
      HeightBound(t);
    } else {
      StepRefines(t, ops[0]);
      RunUnfolds(t, ops);
      var (u, r) := Step(t, ops[0]);
      RunRefines(u, ops[1..]);
      AnswersCons(Dict(InOrder(t)), ops, r, Run(u, ops[1..]).1, false);
    }
  }

  /** The same for every tree that can be reached from the empty one. */
  lemma ReachableRefines(ops: seq<Op>)
    ensures Good(Nil)
    ensures var (t, rs) := Run(Nil, ops);
            && Good(t) && Dict(InOrder(t)) == DictRun(map[], ops)
            && DictRunAnswers(map[], ops, rs, false)
            && Pow2(Height(t)) <= (|InOrder(t)| + 1) * (|InOrder(t)| + 1)
  {
    ExtremeEnds([]);
    RunRefines(Nil, ops);
  }
}
