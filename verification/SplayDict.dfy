/** The splay operations as functions of the tree, and the map they stand for. Every
    lookup restructures the tree, so the tree is part of every answer. */
module SplayDict {
  import opened Elements
  import opened Dictionary
  import opened Splay

  // ---------- The operations ----------

  function Insert(t: Tree, n: Node): Tree {
    if t.Nil? then Bin(Nil, n, Nil)
    else
      var s := SplayAt(Key(n.key), t);
      if n.key < s.node.key then Bin(s.left, n, Bin(Nil, s.node, s.right))
      else if n.key > s.node.key then Bin(Bin(s.left, s.node, Nil), n, s.right)
      else s
  }

  /** When the left subtree is splayed for the same key again, whatever is then on
      the right of its root is overwritten. */
  function Remove(t: Tree, k: int): Tree {
    if t.Nil? then Nil
    else
      var s := SplayAt(Key(k), t);
      if s.node.key != k then s
      else if s.left.Nil? then s.right
      else SplayAt(Key(k), s.left).(right := s.right)
  }

  function Find(t: Tree, k: int): (Tree, Node?) {
    if t.Nil? then (Nil, null)
    else
      var s := SplayAt(Key(k), t);
      (s, if s.node.key == k then s.node else null)
  }

  function MinMax(t: Tree, p: Probe): (Tree, Node?) {
    if t.Nil? then (Nil, null) else var s := SplayAt(p, t); (s, s.node)
  }

  function Leftmost(t: Tree): Node?
    decreases t
  {
    if t.Nil? then null else if t.left.Nil? then t.node else Leftmost(t.left)
  }

  function Next(t: Tree, k: int): (Tree, Node?) {
    if t.Nil? then (Nil, null) else var s := SplayAt(Key(k), t); (s, Leftmost(s.right))
  }

  // ---------- What they do to the map ----------

  /** A splay for key `k` splits a sorted tree at `k`. */
  lemma SplaySplits(t: Tree, k: int)
    requires t.Bin? && Sorted(InOrder(t))
    ensures var s := SplayAt(Key(k), t);
            && InOrder(t) == InOrder(s.left) + [s.node] + InOrder(s.right)
            && (k <= s.node.key ==> Below(InOrder(s.left), k))
            && (k >= s.node.key ==> Above(k, InOrder(s.right)))
            && Below(InOrder(s.left), s.node.key) && Above(s.node.key, InOrder(s.right))
            && Sorted(InOrder(s.left)) && Sorted(InOrder(s.right))
  {
    SplayCorrect(Key(k), t);
    var s := SplayAt(Key(k), t);
    SortedConcat(InOrder(s.left), s.node, InOrder(s.right));
    forall x | x in InOrder(s.left) && k <= s.node.key ensures x.key < k {
      assert Compare(Key(k), s.node) < 0 ==> Compare(Key(k), x) > 0;
    }
    forall x | x in InOrder(s.right) && k >= s.node.key ensures k < x.key {
      assert Compare(Key(k), s.node) > 0 ==> Compare(Key(k), x) < 0;
    }
  }

  /** The answer is that of the map. The node that was found is at the root, or else a
      neighbour of the key; the tree is otherwise what the splay left. */
  lemma FindIsLookup(t: Tree, k: int)
    requires Sorted(InOrder(t))
    ensures var (s, r) := Find(t, k);
            && InOrder(s) == InOrder(t) && r == Lookup(Dict(InOrder(t)), k)
            && (r != null ==> s.Bin? && s.node == r)
            && (s.Bin? ==> RootIsNear(Key(k), s))
            && (t.Bin? ==> s == BroughtUp(Key(k), t))
  {
    if t.Bin? {
      SplayIsBroughtUp(Key(k), t);
      SplayCorrect(Key(k), t);
      SplaySplits(t, k);
      var s := SplayAt(Key(k), t);
      LookupSplit(InOrder(s.left), s.node, InOrder(s.right), k);
    }
  }

  lemma LookupSplit(a: seq<Node>, n: Node, b: seq<Node>, k: int)
    requires Sorted(a + [n] + b)
    requires (k <= n.key ==> Below(a, k)) && (k >= n.key ==> Above(k, b))
    requires Below(a, n.key) && Above(n.key, b)
    ensures Lookup(Dict(a + [n] + b), k) == if n.key == k then n else null
  {
    var q := a + [n] + b;
    assert n in q;
    if k in Dict(q) {
      var x := Dict(q)[k];
      assert x in a || x == n || x in b;
    }
  }

  lemma InsertBelow(a: seq<Node>, x: Node, b: seq<Node>, n: Node)
    requires Sorted(a + [x] + b) && Below(a, n.key) && Above(x.key, b) && n.key < x.key
    ensures Sorted(a + [n] + ([x] + b)) && Dict(a + [n] + ([x] + b)) == Dict(a + [x] + b)[n.key := n]
  {
    assert a + [x] + b == a + ([x] + b);
    DictInsert(a, n, [x] + b);
  }

  lemma InsertBeside(a: seq<Node>, x: Node, b: seq<Node>, n: Node)
    requires Sorted(a + [x] + b)
    requires Below(a, x.key) && Above(x.key, b)
    requires n.key <= x.key ==> Below(a, n.key)
    requires n.key >= x.key ==> Above(n.key, b)
    ensures n.key in Dict(a + [x] + b) <==> n.key == x.key
    ensures n.key < x.key ==>
              Sorted(a + [n] + ([x] + b)) && Dict(a + [n] + ([x] + b)) == Dict(a + [x] + b)[n.key := n]
    ensures n.key > x.key ==>
              Sorted((a + [x]) + [n] + b) && Dict((a + [x]) + [n] + b) == Dict(a + [x] + b)[n.key := n]
  {
    LookupSplit(a, x, b, n.key);
    if n.key < x.key {
      InsertBelow(a, x, b, n);
    } else if n.key > x.key {
      DictInsert(a + [x], n, b);
    }
  }

  lemma DropEmpty(a: seq<Node>, x: Node)
    ensures [] + [x] + a == [x] + a && a + [x] + [] == a + [x]
  {
  }

  lemma InsertNonEmpty(t: Tree, n: Node)
    requires t.Bin? && Sorted(InOrder(t))
    ensures var s := SplayAt(Key(n.key), t); var q := InOrder(Insert(t, n)); var m := Dict(InOrder(t));
            && (n.key in m <==> n.key == s.node.key)
            && (n.key != s.node.key ==> Sorted(q) && Dict(q) == m[n.key := n])
  {
    var s := SplayAt(Key(n.key), t);
    assert InOrder(Bin(Nil, s.node, s.right)) == [s.node] + InOrder(s.right) by {
      DropEmpty(InOrder(s.right), s.node);
    }
    assert InOrder(Bin(s.left, s.node, Nil)) == InOrder(s.left) + [s.node] by {
      DropEmpty(InOrder(s.left), s.node);
    }
    SplaySplits(t, n.key);
    InsertBeside(InOrder(s.left), s.node, InOrder(s.right), n);
  }

  /** A new key adds exactly the new node, which becomes the root; a present key
      changes nothing but the shape of the tree, and its node is at the root. */
  lemma InsertCorrect(t: Tree, n: Node)
    requires Sorted(InOrder(t))
    ensures Sorted(InOrder(Insert(t, n)))
    ensures var m := Dict(InOrder(t)); Insert(t, n).Bin? && Insert(t, n).node == if n.key in m then m[n.key] else n
    ensures var m := Dict(InOrder(t)); Dict(InOrder(Insert(t, n))) == if n.key in m then m else m[n.key := n]
  {
    if t.Nil? {
      DictInsert([], n, []);
    } else {
      InsertNonEmpty(t, n);
      FindIsLookup(t, n.key);
      SplayCorrect(Key(n.key), t);
    }
  }

  /** The splayed tree `s` is cut beside its root, which goes to the side of the new
      node that it belongs to, together with what lies beyond it. */
  lemma InsertCuts(t: Tree, n: Node)
    requires t.Bin?
    ensures var s, u := BroughtUp(Key(n.key), t), Insert(t, n);
            && (n.key == s.node.key ==> u == s)
            && (n.key < s.node.key ==>
                  u.left == s.left && u.right.Bin? && u.right.left.Nil? && u.right.right == s.right)
            && (n.key > s.node.key ==>
                  u.right == s.right && u.left.Bin? && u.left.right.Nil? && u.left.left == s.left)
            && (n.key != s.node.key ==> (if n.key < s.node.key then u.right else u.left).node == s.node)
  {
    SplayIsBroughtUp(Key(n.key), t);
  }

  /** Splaying a tree for a key above all of its keys leaves nothing on the right of
      the root, so that overwriting that link loses nothing. */
  lemma JoinLosesNothing(t: Tree, k: int)
    requires t.Bin? && Sorted(InOrder(t)) && Below(InOrder(t), k)
    ensures SplayAt(Key(k), t).right.Nil?
  {
    SplaySplits(t, k);
    var s := SplayAt(Key(k), t);
    RootInOrder(s.right);
    assert forall x | x in InOrder(s.right) :: x in InOrder(t);
    assert s.node in InOrder(t);
  }

  lemma RootInOrder(t: Tree)
    ensures t.Bin? ==> t.node in InOrder(t)
  {
  }

  lemma JoinOrder(s: Tree, k: int)
    requires s.Bin? && s.left.Bin? && Sorted(InOrder(s.left)) && Below(InOrder(s.left), k)
    ensures var u := SplayAt(Key(k), s.left);
            InOrder(Bin(u.left, u.node, s.right)) == InOrder(s.left) + InOrder(s.right)
  {
    JoinLosesNothing(s.left, k);
    SplayCorrect(Key(k), s.left);
    var u := SplayAt(Key(k), s.left);
    DropEmpty(InOrder(u.left), u.node);
  }

  lemma RemoveBeside(a: seq<Node>, x: Node, b: seq<Node>, k: int)
    requires Sorted(a + [x] + b)
    requires Below(a, x.key) && Above(x.key, b)
    requires (k <= x.key ==> Below(a, k)) && (k >= x.key ==> Above(k, b))
    ensures if k == x.key then Sorted(a + b) && Dict(a + b) == Dict(a + [x] + b) - {k} else k !in Dict(a + [x] + b)
  {
    LookupSplit(a, x, b, k);
    DictRemove(a, x, b);
  }

  lemma RemoveNonEmpty(t: Tree, k: int)
    requires t.Bin? && Sorted(InOrder(t))
    ensures var s := SplayAt(Key(k), t); var q := InOrder(Remove(t, k)); var m := Dict(InOrder(t));
            if s.node.key == k then Sorted(q) && Dict(q) == m - {k} else k !in m
  {
    SplaySplits(t, k);
    var s := SplayAt(Key(k), t);
    RemoveBeside(InOrder(s.left), s.node, InOrder(s.right), k);
    if s.node.key == k {
      if s.left.Bin? { JoinOrder(s, k); } else { assert [] + InOrder(s.right) == InOrder(s.right); }
    }
  }

  /** Removal takes out exactly the node with that key, if there is one. */
  lemma RemoveCorrect(t: Tree, k: int)
    requires Sorted(InOrder(t))
    ensures Sorted(InOrder(Remove(t, k)))
    ensures Dict(InOrder(Remove(t, k))) == Dict(InOrder(t)) - {k}
  {
    if t.Bin? {
      RemoveNonEmpty(t, k);
      SplayCorrect(Key(k), t);
    }
  }

  /** `r` has the greatest key of the map below `k`. */
  ghost predicate IsPredecessor(m: map<int, Node>, k: int, r: Node) {
    Lookup(m, r.key) == r && r.key < k && forall j | j in m && j < k :: j <= r.key
  }

  lemma LastIsPredecessor(a: seq<Node>, n: Node, b: seq<Node>)
    requires Sorted(a + [n] + b)
    ensures var m := Dict(a + [n] + b);
            if a == [] then forall j | j in m :: n.key <= j else IsPredecessor(m, n.key, a[|a| - 1])
  {
    var q := a + [n] + b;
    SortedConcat(a, n, b);
    forall j | j in Dict(q) && j < n.key ensures a != [] && j <= a[|a| - 1].key {
      assert Dict(q)[j] in a;
    }
    if a != [] { assert a[|a| - 1] in q; }
  }

  /** Where removal leaves the root: at a neighbour of an absent key; at what was on
      the right of the removed node if nothing was on its left; otherwise at its
      predecessor, which keeps the right side. */
  lemma RemoveRoot(t: Tree, k: int)
    requires t.Bin? && Sorted(InOrder(t))
    ensures var s, u, p := BroughtUp(Key(k), t), Remove(t, k), Key(k);
            && (k !in Dict(InOrder(t)) ==> u == s && RootIsNear(p, u))
            && (k in Dict(InOrder(t)) ==>
                  && s.node.key == k
                  && (s.left.Nil? ==> u == s.right)
                  && (s.left.Bin? ==>
                        && u.Bin? && u.right == s.right && u.left == BroughtUp(p, s.left).left
                        && IsPredecessor(Dict(InOrder(t)), k, u.node))
                  && (s.left.Nil? ==> forall j | j in Dict(InOrder(t)) :: k <= j))
  {
    FindIsLookup(t, k);
    SplaySplits(t, k);
    SplayIsBroughtUp(Key(k), t);
    var s := SplayAt(Key(k), t);
    LastIsPredecessor(InOrder(s.left), s.node, InOrder(s.right));
    if s.node.key == k && s.left.Bin? {
      SplayIsBroughtUp(Key(k), s.left);
      JoinLosesNothing(s.left, k);
      SplayCorrect(Key(k), s.left);
    }
  }

  lemma MinMaxCorrect(t: Tree, low: bool)
    requires Sorted(InOrder(t))
    ensures var (s, r) := MinMax(t, if low then LowEnd else HighEnd); var q := InOrder(t);
            && InOrder(s) == q
            && r == (if q == [] then null else if low then q[0] else q[|q| - 1])
            && (s.Bin? ==> s.node == r && if low then s.left.Nil? else s.right.Nil?)
            && (t.Bin? ==> s == BroughtUp(if low then LowEnd else HighEnd, t))
  {
    if t.Bin? {
      var p := if low then LowEnd else HighEnd;
      SplayIsBroughtUp(p, t);
      SplayCorrect(p, t);
      var s := SplayAt(p, t);
      RootInOrder(s.left);
      RootInOrder(s.right);
    }
  }

  lemma {:induction false} LeftmostFirst(t: Tree)
    ensures Leftmost(t) == if t.Nil? then null else InOrder(t)[0]
  {
    if t.Bin? { LeftmostFirst(t.left); }
  }

  /** The successor of a node of the tree. */
  lemma NextCorrect(t: Tree, n: Node)
    requires Sorted(InOrder(t)) && n in InOrder(t)
    ensures var (s, r) := Next(t, n.key);
            && InOrder(s) == InOrder(t) && s.Bin? && s.node == n && IsNext(InOrder(t), n, r)
            && t.Bin? && s == BroughtUp(Key(n.key), t)
  {
    SplayIsBroughtUp(Key(n.key), t);
    SplaySplits(t, n.key);
    var s := SplayAt(Key(n.key), t);
    var a, b := InOrder(s.left), InOrder(s.right);
    LookupSplit(a, s.node, b, n.key);
    LeftmostFirst(s.right);
    assert NextAt(a + [s.node] + b, |a|, n, Leftmost(s.right));
  }

  // ---------- Runs ----------

  /** SPLAY_INSERT and SPLAY_REMOVE return nothing. */
  function Step(t: Tree, op: Op): (Tree, Node?) {
    match op
    case Put(n) => (Insert(t, n), null)
    case Delete(k) => (Remove(t, k), null)
    case Get(k) => Find(t, k)
    case Least => MinMax(t, LowEnd)
    case Greatest => MinMax(t, HighEnd)
  }

  lemma MinMaxIsExtreme(t: Tree, low: bool)
    requires Sorted(InOrder(t))
    ensures var (s, r) := MinMax(t, if low then LowEnd else HighEnd);
            InOrder(s) == InOrder(t) && IsExtreme(Dict(InOrder(t)), r, if low then -1 else 1)
  {
    MinMaxCorrect(t, low);
    ExtremeEnds(InOrder(t));
  }

  lemma UpdateRefines(t: Tree, op: Op)
    requires Sorted(InOrder(t)) && (op.Put? || op.Delete?)
    ensures var t' := Step(t, op).0;
            Sorted(InOrder(t')) && Dict(InOrder(t')) == DictNext(Dict(InOrder(t)), op)
  {
    if op.Put? { InsertCorrect(t, op.n); } else { RemoveCorrect(t, op.k); }
  }

  lemma QueryRefines(t: Tree, op: Op)
    requires Sorted(InOrder(t)) && !op.Put? && !op.Delete?
    ensures var (t', r) := Step(t, op);
            InOrder(t') == InOrder(t) && DictAnswers(Dict(InOrder(t)), op, r, true)
  {
    if op.Get? { FindIsLookup(t, op.k); } else { MinMaxIsExtreme(t, op.Least?); }
  }

  /** Every operation does to the tree, and answers, what it would on the map. */
  lemma StepRefines(t: Tree, op: Op)
    requires Sorted(InOrder(t))
    ensures var (t', r) := Step(t, op); var m := Dict(InOrder(t));
            Sorted(InOrder(t')) && Dict(InOrder(t')) == DictNext(m, op) && DictAnswers(m, op, r, true)
  {
    if op.Put? || op.Delete? { UpdateRefines(t, op); } else { QueryRefines(t, op); }
  }

  /** SPLAY_NEXT restructures the tree as well, so a run may hold it beside the
      operations of the map. */
  datatype Command = Do(op: Op) | Succ(n: Node)

  function Obey(t: Tree, c: Command): (Tree, Node?) {
    if c.Do? then Step(t, c.op) else Next(t, c.n.key)
  }

  ghost function MapAfter(m: map<int, Node>, c: Command): map<int, Node> {
    if c.Do? then DictNext(m, c.op) else m
  }

  /** The header lets its caller ask for the successor of nodes of the tree only. */
  ghost predicate Sensible(m: map<int, Node>, c: Command) {
    c.Succ? ==> Lookup(m, c.n.key) == c.n
  }

  ghost predicate SensibleRun(m: map<int, Node>, cs: seq<Command>)
    decreases |cs|
  {
    cs == [] || (Sensible(m, cs[0]) && SensibleRun(MapAfter(m, cs[0]), cs[1..]))
  }

  /** `r` has the least key of the map above `k`, or there is none. */
  ghost predicate IsSuccessor(m: map<int, Node>, k: int, r: Node?) {
    if r == null then forall j | j in m :: j <= k
    else Lookup(m, r.key) == r && k < r.key && forall j | j in m && k < j :: r.key <= j
  }

  ghost predicate MapAnswers(m: map<int, Node>, c: Command, r: Node?) {
    if c.Do? then DictAnswers(m, c.op, r, true) else IsSuccessor(m, c.n.key, r)
  }

  ghost predicate MapRunAnswers(m: map<int, Node>, cs: seq<Command>, rs: seq<Node?>)
    decreases |cs|
  {
    && |rs| == |cs|
    && (cs != [] ==> MapAnswers(m, cs[0], rs[0]) && MapRunAnswers(MapAfter(m, cs[0]), cs[1..], rs[1..]))
  }

  ghost function MapRun(m: map<int, Node>, cs: seq<Command>): map<int, Node>
    decreases |cs|
  {
    if cs == [] then m else MapRun(MapAfter(m, cs[0]), cs[1..])
  }

  lemma NextIsSuccessor(q: seq<Node>, n: Node, r: Node?)
    requires Sorted(q) && IsNext(q, n, r)
    ensures IsSuccessor(Dict(q), n.key, r)
  {
    var i :| NextAt(q, i, n, r);
    forall k | k in Dict(q) && n.key < k ensures r != null && r.key <= k {
      var j :| 0 <= j < |q| && q[j] == Dict(q)[k];
    }
  }

  lemma ObeyRefines(t: Tree, c: Command)
    requires Sorted(InOrder(t)) && Sensible(Dict(InOrder(t)), c)
    ensures var (t', r) := Obey(t, c); var m := Dict(InOrder(t));
            Sorted(InOrder(t')) && Dict(InOrder(t')) == MapAfter(m, c) && MapAnswers(m, c, r)
  {
    if c.Do? {
      StepRefines(t, c.op);
    } else {
      NextCorrect(t, c.n);
      NextIsSuccessor(InOrder(t), c.n, Obey(t, c).1);
    }
  }

  function Run(t: Tree, cs: seq<Command>): (Tree, seq<Node?>)
    decreases |cs|
  {
    if cs == [] then (t, [])
    else
      var (t', r) := Obey(t, cs[0]);
      var (t'', rs) := Run(t', cs[1..]);
      (t'', [r] + rs)
  }

  lemma MapAnswersCons(m: map<int, Node>, cs: seq<Command>, r: Node?, rs: seq<Node?>)
    requires cs != [] && MapAnswers(m, cs[0], r) && MapRunAnswers(MapAfter(m, cs[0]), cs[1..], rs)
    ensures MapRunAnswers(m, cs, [r] + rs)
  {
    assert ([r] + rs)[1..] == rs;
  }

  /** Over any run, the answers are those of the map. */
  lemma {:induction false} RunRefines(t: Tree, cs: seq<Command>)
    requires Sorted(InOrder(t)) && SensibleRun(Dict(InOrder(t)), cs)
    ensures var (t', rs) := Run(t, cs); var m := Dict(InOrder(t));
            && Sorted(InOrder(t')) && Dict(InOrder(t')) == MapRun(m, cs)
            && MapRunAnswers(m, cs, rs)
    decreases |cs|
  {
    if cs != [] {
      var (u, r) := Obey(t, cs[0]);
      ObeyRefines(t, cs[0]);
      RunRefines(u, cs[1..]);
      MapAnswersCons(Dict(InOrder(t)), cs, r, Run(u, cs[1..]).1);
    }
  }

  function Dos(ops: seq<Op>): seq<Command> {
    seq(|ops|, i requires 0 <= i < |ops| => Do(ops[i]))
  }

  /** Runs of the operations of the map alone are among them, whatever they are, and
      mean the same. */
  lemma {:induction false} DosAreSensible(m: map<int, Node>, ops: seq<Op>)
    ensures SensibleRun(m, Dos(ops)) && MapRun(m, Dos(ops)) == DictRun(m, ops)
    ensures forall rs :: MapRunAnswers(m, Dos(ops), rs) <==> DictRunAnswers(m, ops, rs, true)
    decreases |ops|
  {
    if ops != [] {
      assert Dos(ops)[1..] == Dos(ops[1..]);
      DosAreSensible(DictNext(m, ops[0]), ops[1..]);
    }
  }
}
