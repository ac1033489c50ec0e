/** What splaying costs: the amortised bound of the header, with whole numbers. Every
    node has a rank, the logarithm of the size of its subtree rounded down, and a tree
    has the sum of the ranks of its nodes as its potential. */
module SplayCost {
  import opened Elements
  import opened Dictionary
  import opened Splay
  import opened SplayDict
  import opened Powers

  // ---------- Rank and potential ----------

  function Size(t: Tree): nat {
    if t.Nil? then 0 else Size(t.left) + 1 + Size(t.right)
  }

  ghost function Rank(t: Tree): nat {
    Log2(Size(t))
  }

  ghost function Potential(t: Tree): nat {
    if t.Nil? then 0 else Rank(t) + Potential(t.left) + Potential(t.right)
  }

  lemma {:induction false} SizeIsLength(t: Tree)
    ensures Size(t) == |InOrder(t)|
  {
    if t.Bin? {
      SizeIsLength(t.left);
      SizeIsLength(t.right);
    }
  }

  lemma {:induction false} PotentialBound(t: Tree)
    ensures Potential(t) <= Size(t) * Rank(t)
  {
    if t.Bin? {
      PotentialBound(t.left);
      PotentialBound(t.right);
      LogMonotone(Size(t.left), Size(t));
      LogMonotone(Size(t.right), Size(t));
      SumOfRanks(Size(t.left), Rank(t.left), Size(t.right), Rank(t.right), Rank(t));
    }
  }

  lemma SumOfRanks(a: nat, i: nat, b: nat, j: nat, k: nat)
    requires i <= k && j <= k
    ensures k + a * i + b * j <= (a + 1 + b) * k
  {
    Times(a, i, k);
    Times(b, j, k);
    assert (a + 1 + b) * k == a * k + k + b * k;
  }

  lemma Times(a: nat, i: nat, k: nat)
    requires i <= k
    ensures a * i <= a * k
  {
  }

  // ---------- One splay ----------

  /** The pieces that the side trees had before only surround the result. */
  lemma SplayedWithin(p: Probe, l: Spine, t: Tree, r: Spine)
    requires t.Bin?
    ensures var s := SplayAt(p, t);
            Splayed(p, l, t, r) == Bin(CloseLeft(l, s.left), s.node, CloseRight(r, s.right))
  {
    SplayedIsBroughtUp(p, l, t, r);
    SplayIsBroughtUp(p, t);
  }

  lemma SplaySize(p: Probe, t: Tree)
    requires t.Bin?
    ensures Size(SplayAt(p, t)) == Size(t)
  {
    SplayedOrder(p, End, t, End);
    SizeIsLength(SplayAt(p, t));
    SizeIsLength(t);
    assert [] + InOrder(t) + [] == InOrder(t);
  }

  /** By how much the rank of the root exceeds that of the side tree it goes to. */
  ghost function Drop(p: Probe, t: Tree): int
    requires t.Bin?
  {
    var comp, s := Compare(p, t.node), SplayAt(p, t);
    if comp < 0 then Rank(t) - Rank(s.right) else if comp > 0 then Rank(t) - Rank(s.left) else 0
  }

  /** What a drop is worth. */
  function Slack(d: int): int {
    if d >= 1 then 2 * d - 1 else 0
  }

  /** Iterations and rise of the potential, the new root not counted. */
  ghost function Charge(p: Probe, t: Tree): int
    requires t.Bin?
  {
    var s := SplayAt(p, t);
    Turns(p, t) + 2 * Potential(s.left) + 2 * Potential(s.right) - 2 * Potential(t)
  }

  ghost predicate Paid(p: Probe, t: Tree)
    requires t.Bin?
  {
    Drop(p, t) >= 0 && Charge(p, t) <= 3 * Rank(t) + 1 - Slack(Drop(p, t))
  }

  lemma DropIsNat(p: Probe, t: Tree)
    requires t.Bin?
    ensures Drop(p, t) >= 0
  {
    SplaySize(p, t);
    var s := SplayAt(p, t);
    LogMonotone(Size(s.left), Size(t));
    LogMonotone(Size(s.right), Size(t));
  }

  /** The root and its right subtree are linked away, and the search turns. */
  lemma ZigBelow(p: Probe, t: Tree)
    requires t.Bin? && t.left.Bin? && Compare(p, t.node) < 0 && Compare(p, t.left.node) >= 0
    requires Paid(p, t.left)
    ensures Paid(p, t)
  {
    var s, z := SplayAt(p, t), SplayAt(p, t.left);
    SplayedWithin(p, End, t.left, Link(End, t.right, t.node));
    assert s == Bin(z.left, z.node, Bin(z.right, t.node, t.right));
    DropIsNat(p, t);
    SplaySize(p, t);
    LogMonotone(Size(t.left), Size(t));
    if Size(s.left) > 0 { LogOfSum(Size(s.left), Size(s.right), Size(t)); }
    LogMonotone(2, Size(t));
    assert Charge(p, t) == 1 + Charge(p, t.left) - 2 * Drop(p, t);
  }

  lemma ZigAbove(p: Probe, t: Tree)
    requires t.Bin? && t.right.Bin? && Compare(p, t.node) > 0 && Compare(p, t.right.node) <= 0
    requires Paid(p, t.right)
    ensures Paid(p, t)
  {
    var s, z := SplayAt(p, t), SplayAt(p, t.right);
    SplayedWithin(p, Link(End, t.left, t.node), t.right, End);
    assert s == Bin(Bin(t.left, t.node, z.left), z.node, z.right);
    DropIsNat(p, t);
    SplaySize(p, t);
    LogMonotone(Size(t.right), Size(t));
    if Size(s.right) > 0 { LogOfSum(Size(s.left), Size(s.right), Size(t)); }
    LogMonotone(2, Size(t));
    assert Charge(p, t) == 1 + Charge(p, t.right) - 2 * Drop(p, t);
  }

  /** After a rotation the lower node has taken the rank of the upper one, and the
      upper one has lost what the search goes on with. */
  lemma Outranked(w: nat, x: nat, y: nat, n: nat)
    requires w + x < n && w <= y <= n && w > 0 && x > 0
    ensures 1 + 3 * Log2(w) + 2 * Log2(x) - 2 * Log2(y) <= 3 * Log2(n)
  {
    LogOfSum(w, x, n);
    LogMonotone(w, y);
    LogMonotone(y, n);
    LogMonotone(x, n);
    RanksPay(Log2(w), Log2(x), Log2(y), Log2(n));
  }

  lemma RanksPay(w: nat, x: nat, y: nat, n: nat)
    requires w < n || x < n
    requires x <= n && w <= y <= n
    ensures 1 + 3 * w + 2 * x - 2 * y <= 3 * n
  {
  }

  lemma RotatedPotential(t: Tree)
    requires t.Bin?
    ensures t.left.Bin? ==>
              var y, x := t.left, RotatedRight(t).right;
              Potential(t) - Rank(t) - Rank(y) == Potential(y.left) + Potential(x) - Rank(x)
    ensures t.right.Bin? ==>
              var y, x := t.right, RotatedLeft(t).left;
              Potential(t) - Rank(t) - Rank(y) == Potential(x) - Rank(x) + Potential(y.right)
  {
  }

  lemma LastBelowCharge(p: Probe, t: Tree)
    requires t.Bin? && t.left.Bin? && Compare(p, t.node) < 0 && Compare(p, t.left.node) < 0 && t.left.left.Nil?
    ensures Charge(p, t) + 2 * Drop(p, t) <= 1
  {
    RotatedPotential(t);
    assert Turns(p, t.left.left) == 0;
    assert SplayAt(p, t) == Bin(Nil, t.left.node, RotatedRight(t).right);
  }

  lemma ZigZigBelowCharge(p: Probe, t: Tree)
    requires t.Bin? && t.left.Bin? && Compare(p, t.node) < 0 && Compare(p, t.left.node) < 0 && t.left.left.Bin?
    ensures var y, x := t.left, RotatedRight(t).right;
            Charge(p, t) + 2 * Drop(p, t) == 1 + 2 * Rank(x) - 2 * Rank(y) + Charge(p, y.left)
  {
    RotatedPotential(t);
    var y, x, w := t.left, RotatedRight(t).right, SplayAt(p, t.left.left);
    SplayedWithin(p, End, y.left, Link(End, x, y.node));
    assert SplayAt(p, t) == Bin(w.left, w.node, Bin(w.right, y.node, x));
  }

  lemma ZigZigBelow(p: Probe, t: Tree)
    requires t.Bin? && t.left.Bin? && Compare(p, t.node) < 0 && Compare(p, t.left.node) < 0
    requires t.left.left.Bin? ==> Paid(p, t.left.left)
    ensures Paid(p, t)
  {
    DropIsNat(p, t);
    if t.left.left.Bin? {
      ZigZigBelowCharge(p, t);
      Outranked(Size(t.left.left), Size(RotatedRight(t).right), Size(t.left), Size(t));
    } else {
      LastBelowCharge(p, t);
    }
  }

  lemma LastAboveCharge(p: Probe, t: Tree)
    requires t.Bin? && t.right.Bin? && Compare(p, t.node) > 0 && Compare(p, t.right.node) > 0 && t.right.right.Nil?
    ensures Charge(p, t) + 2 * Drop(p, t) <= 1
  {
    RotatedPotential(t);
    assert Turns(p, t.right.right) == 0;
    assert SplayAt(p, t) == Bin(RotatedLeft(t).left, t.right.node, Nil);
  }

  lemma ZigZigAboveCharge(p: Probe, t: Tree)
    requires t.Bin? && t.right.Bin? && Compare(p, t.node) > 0 && Compare(p, t.right.node) > 0 && t.right.right.Bin?
    ensures var y, x := t.right, RotatedLeft(t).left;
            Charge(p, t) + 2 * Drop(p, t) == 1 + 2 * Rank(x) - 2 * Rank(y) + Charge(p, y.right)
  {
    RotatedPotential(t);
    var y, x, w := t.right, RotatedLeft(t).left, SplayAt(p, t.right.right);
    SplayedWithin(p, Link(End, x, y.node), y.right, End);
    assert SplayAt(p, t) == Bin(Bin(x, y.node, w.left), w.node, w.right);
  }

  lemma ZigZigAbove(p: Probe, t: Tree)
    requires t.Bin? && t.right.Bin? && Compare(p, t.node) > 0 && Compare(p, t.right.node) > 0
    requires t.right.right.Bin? ==> Paid(p, t.right.right)
    ensures Paid(p, t)
  {
    DropIsNat(p, t);
    if t.right.right.Bin? {
      ZigZigAboveCharge(p, t);
      Outranked(Size(t.right.right), Size(RotatedLeft(t).left), Size(t.right), Size(t));
    } else {
      LastAboveCharge(p, t);
    }
  }

  /** The loop ends at the root. */
  lemma StopPaid(p: Probe, t: Tree)
    requires t.Bin? && (Compare(p, t.node) < 0 ==> t.left.Nil?) && (Compare(p, t.node) > 0 ==> t.right.Nil?)
    ensures Paid(p, t)
  {
    DropIsNat(p, t);
    assert SplayAt(p, t) == t;
    assert Charge(p, t) + 2 * Rank(t) <= 1;
    assert Drop(p, t) <= Rank(t);
  }

  /** One splay pays for its iterations but for three times the rank of the root. */
  lemma {:induction false} SplayPaid(p: Probe, t: Tree)
    requires t.Bin?
    ensures Paid(p, t)
    decreases t
  {
    var comp := Compare(p, t.node);
    if comp < 0 && t.left.Bin? {
      if Compare(p, t.left.node) < 0 {
        if t.left.left.Bin? { SplayPaid(p, t.left.left); }
        ZigZigBelow(p, t);
      } else {
        SplayPaid(p, t.left);
        ZigBelow(p, t);
      }
    } else if comp > 0 && t.right.Bin? {
      if Compare(p, t.right.node) > 0 {
        if t.right.right.Bin? { SplayPaid(p, t.right.right); }
        ZigZigAbove(p, t);
      } else {
        SplayPaid(p, t.right);
        ZigAbove(p, t);
      }
    } else {
      StopPaid(p, t);
    }
  }

  /** The access lemma: iterations plus twice the rise of the potential are at most
      five times the rank of the root and one. */
  lemma SplayAmortised(p: Probe, t: Tree)
    requires t.Bin?
    ensures Turns(p, t) + 2 * Potential(SplayAt(p, t)) <= 2 * Potential(t) + 5 * Rank(t) + 1
  {
    SplayPaid(p, t);
    SplaySize(p, t);
  }

  // ---------- The operations and runs ----------

  /** The iterations of all splays of one operation. */
  function StepTurns(t: Tree, op: Op): nat {
    match op
    case Put(n) => Turns(Key(n.key), t)
    case Delete(k) => Turns(Key(k), t) + SecondTurns(t, k)
    case Get(k) => Turns(Key(k), t)
    case Least => Turns(LowEnd, t)
    case Greatest => Turns(HighEnd, t)
  }

  /** The second splay of SPLAY_REMOVE. */
  function SecondTurns(t: Tree, k: int): nat {
    if t.Nil? then 0
    else
      var s := SplayAt(Key(k), t);
      if s.node.key == k then Turns(Key(k), s.left) else 0
  }

  /** What linking the new node above the splayed tree `s` adds to the potential. */
  lemma PutOnTop(s: Tree, n: Node)
    requires s.Bin?
    ensures var u := Bin(s.left, n, Bin(Nil, s.node, s.right));
            Size(u) == Size(s) + 1 && Potential(u) <= 2 * Rank(u) + Potential(s.left) + Potential(s.right)
    ensures var u := Bin(Bin(s.left, s.node, Nil), n, s.right);
            Size(u) == Size(s) + 1 && Potential(u) <= 2 * Rank(u) + Potential(s.left) + Potential(s.right)
  {
    var x, y := Bin(s.left, s.node, Nil), Bin(Nil, s.node, s.right);
    RankBelow(s.left, n, y);
    RankBelow(x, n, s.right);
    assert Potential(x) == Rank(x) + Potential(s.left);
    assert Potential(y) == Rank(y) + Potential(s.right);
  }

  lemma RankBelow(l: Tree, n: Node, r: Tree)
    ensures var u := Bin(l, n, r); Rank(l) <= Rank(u) && Rank(r) <= Rank(u)
  {
    LogMonotone(Size(l), Size(Bin(l, n, r)));
    LogMonotone(Size(r), Size(Bin(l, n, r)));
  }

  lemma InsertAmortised(t: Tree, n: Node)
    ensures var u := Insert(t, n);
            && Size(u) <= Size(t) + 1
            && StepTurns(t, Put(n)) + 2 * Potential(u) <= 2 * Potential(t) + 7 * Rank(u) + 1
  {
    if t.Bin? {
      var p, u := Key(n.key), Insert(t, n);
      SplayPaid(p, t);
      SplaySize(p, t);
      PutOnTop(SplayAt(p, t), n);
      LogMonotone(Size(t), Size(u));
    }
  }

  lemma RemoveAmortised(t: Tree, k: int)
    ensures Size(Remove(t, k)) <= Size(t)
    ensures StepTurns(t, Delete(k)) + 2 * Potential(Remove(t, k)) <= 2 * Potential(t) + 8 * Rank(t) + 2
  {
    if t.Bin? {
      var p, u := Key(k), Remove(t, k);
      var s := SplayAt(p, t);
      SplayPaid(p, t);
      SplaySize(p, t);
      LogMonotone(Size(s.left), Size(t));
      if s.node.key == k && s.left.Bin? {
        SplayPaid(p, s.left);
        SplaySize(p, s.left);
        LogMonotone(Size(u), Size(t));
      }
    }
  }

  /** Every operation takes amortised logarithmic time. */
  lemma StepAmortised(t: Tree, op: Op, n: nat)
    requires Size(t) + (if op.Put? then 1 else 0) <= n
    ensures var u := Step(t, op).0;
            && Size(u) <= Size(t) + (if op.Put? then 1 else 0)
            && StepTurns(t, op) + 2 * Potential(u) <= 2 * Potential(t) + 8 * Log2(n) + 2
  {
    LogMonotone(Size(t), n);
    match op
    case Put(x) =>
      InsertAmortised(t, x);
      LogMonotone(Size(Insert(t, x)), n);
    case Delete(k) => RemoveAmortised(t, k);
    case _ =>
      if t.Bin? {
        var p := match op
          case Get(k) => Key(k)
          case Least => LowEnd
          case _ => HighEnd;
        SplayAmortised(p, t);
        SplaySize(p, t);
      }
  }

  // ---------- The walks of SPLAY_NEXT ----------

  /** The iterations of the second loop of SPLAY_NEXT, which descends to the leftmost
      node of `t` without splaying. */
  function Walk(t: Tree): nat {
    if t.Nil? || t.left.Nil? then 0 else 1 + Walk(t.left)
  }

  /** Whoever then looks for that node, or below it, goes the same way in splaying. */
  lemma {:induction false} LeftmostTurns(p: Probe, t: Tree)
    requires t.Bin? && Sorted(InOrder(t)) && forall x | x in InOrder(t) :: Compare(p, x) <= 0
    ensures Walk(t) <= 2 * Turns(p, t)
    decreases t
  {
    if t.left.Bin? {
      SortedConcat(InOrder(t.left), t.node, InOrder(t.right));
      SortedConcat(InOrder(t.left.left), t.left.node, InOrder(t.left.right));
      var y := t.left;
      assert t.node in InOrder(t);
      assert y.node in InOrder(t.left);
      assert Compare(p, t.node) < 0 by { assert p.HighEnd? || Compare(p, y.node) <= 0; }
      if y.left.Bin? {
        RootInOrder(y.left);
        assert Compare(p, y.left.node) <= 0;
        assert Compare(p, y.node) < 0;
        LeftmostTurns(p, y.left);
      }
    }
  }

  /** From a splayed node on, a search for any key above it that is not above its
      successor pays for the walk to the successor. */
  lemma WalkPaid(t: Tree, k: int)
    requires t.Bin? && Sorted(InOrder(t)) && t.node.key < k
    requires forall x | x in InOrder(t.right) :: k <= x.key
    ensures Walk(t.right) <= 2 * Turns(Key(k), t)
  {
    if t.right.Bin? {
      SortedConcat(InOrder(t.left), t.node, InOrder(t.right));
      RootInOrder(t.right);
      LeftmostTurns(Key(k), t.right);
    }
  }

  /** What a command looks for first. */
  function Target(c: Command): Probe {
    match c
    case Succ(n) => Key(n.key)
    case Do(Put(n)) => Key(n.key)
    case Do(Delete(k)) => Key(k)
    case Do(Get(k)) => Key(k)
    case Do(Least) => LowEnd
    case Do(Greatest) => HighEnd
  }

  function Splays(t: Tree, c: Command): nat {
    if c.Do? then StepTurns(t, c.op) else Turns(Key(c.n.key), t)
  }

  function WalkOf(t: Tree, c: Command): nat {
    if c.Succ? && t.Bin? then Walk(SplayAt(Key(c.n.key), t).right) else 0
  }

  /** The iterations of all splays of a run. */
  function RunSplays(t: Tree, cs: seq<Command>): nat
    decreases |cs|
  {
    if cs == [] then 0 else Splays(t, cs[0]) + RunSplays(Obey(t, cs[0]).0, cs[1..])
  }

  /** The iterations of all walks of a run. */
  function RunWalks(t: Tree, cs: seq<Command>): nat
    decreases |cs|
  {
    if cs == [] then 0 else WalkOf(t, cs[0]) + RunWalks(Obey(t, cs[0]).0, cs[1..])
  }

  function LastWalk(t: Tree, cs: seq<Command>): nat
    decreases |cs|
  {
    if cs == [] then 0 else if |cs| == 1 then WalkOf(t, cs[0]) else LastWalk(Obey(t, cs[0]).0, cs[1..])
  }

  /** The number of insertions. */
  function Puts(cs: seq<Command>): nat
    decreases |cs|
  {
    if cs == [] then 0 else (if cs[0].Do? && cs[0].op.Put? then 1 else 0) + Puts(cs[1..])
  }

  lemma ObeyAmortised(t: Tree, c: Command, n: nat)
    requires Size(t) + (if c.Do? && c.op.Put? then 1 else 0) <= n
    ensures var u := Obey(t, c).0;
            && Size(u) <= Size(t) + (if c.Do? && c.op.Put? then 1 else 0)
            && Splays(t, c) + 2 * Potential(u) <= 2 * Potential(t) + 8 * Log2(n) + 2
  {
    if c.Do? {
      StepAmortised(t, c.op, n);
    } else if t.Bin? {
      SplayAmortised(Key(c.n.key), t);
      SplaySize(Key(c.n.key), t);
      LogMonotone(Size(t), n);
    }
  }

  lemma {:induction false} RunSummed(t: Tree, cs: seq<Command>, n: nat, m: nat, k: nat)
    requires Size(t) + Puts(cs) <= n && |cs| == m && k == 8 * Log2(n) + 2
    ensures var u := Run(t, cs).0;
            Size(u) <= n && RunSplays(t, cs) + 2 * Potential(u) <= 2 * Potential(t) + m * k
    decreases m
  {
    if m > 0 {
      var c, u, v := cs[0], Obey(t, cs[0]).0, Run(t, cs).0;
      ObeyAmortised(t, c, n);
      RunSummed(u, cs[1..], n, m - 1, k);
      OneCommand(Splays(t, c), RunSplays(u, cs[1..]), Potential(t), Potential(u), Potential(v), m, k);
    }
  }

  lemma OneCommand(first: nat, rest: nat, before: nat, between: nat, after: nat, m: nat, k: nat)
    requires m > 0 && first + 2 * between <= 2 * before + k
    requires rest + 2 * after <= 2 * between + (m - 1) * k
    ensures first + rest + 2 * after <= 2 * before + m * k
  {
    OneMore(m, k);
  }

  /** The splays of any run. */
  lemma RunAmortised(t: Tree, cs: seq<Command>, n: nat)
    requires Size(t) + Puts(cs) <= n
    ensures var u := Run(t, cs).0;
            Size(u) <= n && RunSplays(t, cs) + 2 * Potential(u) <= 2 * Potential(t) + |cs| * (8 * Log2(n) + 2)
  {
    RunSummed(t, cs, n, |cs|, 8 * Log2(n) + 2);
  }

  lemma OneMore(m: nat, k: nat)
    requires m > 0
    ensures m * k == (m - 1) * k + k
  {
  }

  // ---------- Runs with SPLAY_NEXT ----------

  /** `p` is a key above that of `n`, and no key of the map lies between them. */
  ghost predicate Follows(m: map<int, Node>, n: Node, p: Probe) {
    p.Key? && n.key < p.k && forall k | k in m && n.key < k :: p.k <= k
  }

  ghost predicate HasNext(m: map<int, Node>, n: Node) {
    exists k :: k in m && n.key < k
  }

  /** There is a successor, and the next command does not look for it. */
  ghost predicate Abandons(m: map<int, Node>, c: Command, next: Command) {
    c.Succ? && HasNext(m, c.n) && !Follows(m, c.n, Target(next))
  }

  /** Wherever a successor was asked for and there is one, the next command looks for
      it, or for a key on the way to it. */
  ghost predicate Continued(m: map<int, Node>, cs: seq<Command>)
    decreases |cs|
  {
    |cs| > 1 ==> !Abandons(m, cs[0], cs[1]) && Continued(MapAfter(m, cs[0]), cs[1..])
  }

  /** The iterations of the walks to successors that the run does not go on with. */
  ghost function AbandonedWalks(m: map<int, Node>, t: Tree, cs: seq<Command>): nat
    decreases |cs|
  {
    if |cs| <= 1 then 0
    else
      (if Abandons(m, cs[0], cs[1]) then WalkOf(t, cs[0]) else 0)
      + AbandonedWalks(MapAfter(m, cs[0]), Obey(t, cs[0]).0, cs[1..])
  }

  lemma {:induction false} ContinuedAbandonsNothing(m: map<int, Node>, t: Tree, cs: seq<Command>)
    requires Continued(m, cs)
    ensures AbandonedWalks(m, t, cs) == 0
    decreases |cs|
  {
    if |cs| > 1 { ContinuedAbandonsNothing(MapAfter(m, cs[0]), Obey(t, cs[0]).0, cs[1..]); }
  }

  lemma {:induction false} AbandonedAreWalks(m: map<int, Node>, t: Tree, cs: seq<Command>)
    ensures AbandonedWalks(m, t, cs) <= RunWalks(t, cs)
    decreases |cs|
  {
    if |cs| > 1 { AbandonedAreWalks(MapAfter(m, cs[0]), Obey(t, cs[0]).0, cs[1..]); }
  }

  lemma FollowsAfter(a: seq<Node>, n: Node, b: seq<Node>, p: Probe)
    requires Sorted(a + [n] + b) && b != []
    requires HasNext(Dict(a + [n] + b), n) ==> Follows(Dict(a + [n] + b), n, p)
    ensures p.Key? && n.key < p.k && forall x | x in b :: p.k <= x.key
  {
    SortedConcat(a, n, b);
    forall x | x in b ensures x.key in Dict(a + [n] + b) && n.key < x.key {
      assert x in a + [n] + b;
    }
    assert b[0] in b;
  }

  lemma FollowingPays(u: Tree, p: Probe)
    requires u.Bin? && u.right.Bin? && Sorted(InOrder(u))
    requires HasNext(Dict(InOrder(u)), u.node) ==> Follows(Dict(InOrder(u)), u.node, p)
    ensures Walk(u.right) <= 2 * Turns(p, u)
  {
    FollowsAfter(InOrder(u.left), u.node, InOrder(u.right), p);
    WalkPaid(u, p.k);
  }

  /** Looking for what follows `n` pays for the walk that found it. */
  lemma NextPaid(t: Tree, n: Node, c: Command)
    requires Sorted(InOrder(t)) && Lookup(Dict(InOrder(t)), n.key) == n
    requires HasNext(Dict(InOrder(t)), n) ==> Follows(Dict(InOrder(t)), n, Target(c))
    ensures WalkOf(t, Succ(n)) <= 2 * Splays(Next(t, n.key).0, c)
  {
    NextCorrect(t, n);
    var u := Next(t, n.key).0;
    if u.right.Bin? {
      FollowingPays(u, Target(c));
      TargetSplayed(u, c);
    }
  }

  lemma TargetSplayed(t: Tree, c: Command)
    ensures Turns(Target(c), t) <= Splays(t, c)
  {
  }

  /** So all walks together cost no more than twice the splays, but for the abandoned
      ones and the last. */
  lemma {:induction false} WalksPaid(t: Tree, cs: seq<Command>)
    requires Sorted(InOrder(t)) && SensibleRun(Dict(InOrder(t)), cs) && cs != []
    ensures RunWalks(t, cs) + 2 * Splays(t, cs[0])
         <= 2 * RunSplays(t, cs) + LastWalk(t, cs) + AbandonedWalks(Dict(InOrder(t)), t, cs)
    decreases |cs|
  {
    if |cs| > 1 {
      var c, u := cs[0], Obey(t, cs[0]).0;
      ObeyRefines(t, c);
      WalksPaid(u, cs[1..]);
      if c.Succ? && !Abandons(Dict(InOrder(t)), c, cs[1]) { NextPaid(t, c.n, cs[1]); }
    }
  }

  /** The last walk is as long as the splay that could follow it. */
  lemma {:induction false} LastPaid(t: Tree, cs: seq<Command>)
    requires Sorted(InOrder(t)) && SensibleRun(Dict(InOrder(t)), cs)
    ensures var u := Run(t, cs).0; LastWalk(t, cs) <= 4 * Potential(u) + 10 * Rank(u) + 2
    decreases |cs|
  {
    if cs != [] {
      ObeyRefines(t, cs[0]);
      if |cs| > 1 {
        LastPaid(Obey(t, cs[0]).0, cs[1..]);
      } else if cs[0].Succ? {
        WalkAmortised(t, cs[0].n);
      }
    }
  }

  lemma WalkAmortised(t: Tree, n: Node)
    requires Sorted(InOrder(t)) && Lookup(Dict(InOrder(t)), n.key) == n
    ensures var u := Next(t, n.key).0; Walk(u.right) <= 4 * Potential(u) + 10 * Rank(u) + 2
  {
    NextCorrect(t, n);
    var u := Next(t, n.key).0;
    SortedConcat(InOrder(u.left), u.node, InOrder(u.right));
    if u.right.Bin? {
      var k := InOrder(u.right)[0].key;
      WalkPaid(u, k);
      SplayAmortised(Key(k), u);
    }
  }

  /** From any tree: beyond the bound for the splays, up to a factor of three, a run
      takes the abandoned walks and nothing else. */
  lemma BalanceFrom(t: Tree, cs: seq<Command>, n: nat)
    requires Sorted(InOrder(t)) && Size(t) + Puts(cs) <= n && SensibleRun(Dict(InOrder(t)), cs)
    ensures var total, abandoned := RunSplays(t, cs) + RunWalks(t, cs), AbandonedWalks(Dict(InOrder(t)), t, cs);
            abandoned <= total <= 6 * Potential(t) + 3 * ((|cs| + 1) * (8 * Log2(n) + 2)) + abandoned
  {
    RunAmortised(t, cs, n);
    LastPaid(t, cs);
    LogMonotone(Size(Run(t, cs).0), n);
    OneMore(|cs| + 1, 8 * Log2(n) + 2);
    AbandonedAreWalks(Dict(InOrder(t)), t, cs);
    if cs != [] { WalksPaid(t, cs); }
  }

  /** From the empty tree, the splays of m operations with n insertions take at most
      m (8 lg n + 2) iterations. */
  lemma SplaysFromEmpty(cs: seq<Command>)
    ensures RunSplays(Nil, cs) <= |cs| * (8 * Log2(Puts(cs)) + 2)
  {
    RunAmortised(Nil, cs, Puts(cs));
  }

  /** The Balance Theorem: with the walks of SPLAY_NEXT they take at most
      3 (m + 1) (8 lg n + 2), provided that its answers are followed. */
  lemma BalanceTheorem(cs: seq<Command>)
    requires SensibleRun(map[], cs) && Continued(map[], cs)
    ensures RunSplays(Nil, cs) + RunWalks(Nil, cs) <= 3 * ((|cs| + 1) * (8 * Log2(Puts(cs)) + 2))
  {
    ExtremeEnds([]);
    BalanceFrom(Nil, cs, Puts(cs));
    ContinuedAbandonsNothing(map[], Nil, cs);
  }

  /** Without SPLAY_NEXT there is nothing to follow, and nothing is walked. */
  lemma {:induction false} DosAreContinued(m: map<int, Node>, t: Tree, ops: seq<Op>)
    ensures Continued(m, Dos(ops)) && RunWalks(t, Dos(ops)) == 0
    decreases |ops|
  {
    if ops != [] {
      assert Dos(ops)[1..] == Dos(ops[1..]);
      DosAreContinued(DictNext(m, ops[0]), Step(t, ops[0]).0, ops[1..]);
    }
  }

  // ---------- SPLAY_FOREACH ----------

  function Succs(q: seq<Node>): seq<Command> {
    seq(|q|, i requires 0 <= i < |q| => Succ(q[i]))
  }

  lemma NeighbourFollows(q: seq<Node>, i: nat)
    requires Sorted(q) && i < |q|
    ensures Lookup(Dict(q), q[i].key) == q[i]
    ensures i + 1 < |q| ==> Follows(Dict(q), q[i], Key(q[i + 1].key))
  {
    assert q[i] in q;
    forall k | k in Dict(q) && q[i].key < k ensures i + 1 < |q| ==> q[i + 1].key <= k {
      var j :| 0 <= j < |q| && q[j] == Dict(q)[k];
    }
  }

  /** A traversal follows every answer; the last one is null. */
  lemma {:induction false} TraversalContinued(q: seq<Node>, i: nat)
    requires Sorted(q) && i <= |q|
    ensures SensibleRun(Dict(q), Succs(q[i..])) && Continued(Dict(q), Succs(q[i..]))
    decreases |q| - i
  {
    if i < |q| {
      var cs := Succs(q[i..]);
      TraversalContinued(q, i + 1);
      NeighbourFollows(q, i);
      assert cs[0] == Succ(q[i]) && cs[1..] == Succs(q[i + 1..]);
      assert i + 1 < |q| ==> cs[1] == Succ(q[i + 1]);
    }
  }

  lemma {:induction false} TraversalEnds(t: Tree, i: nat)
    requires Sorted(InOrder(t)) && i < |InOrder(t)|
    ensures LastWalk(t, Succs(InOrder(t)[i..])) == 0
    decreases |InOrder(t)| - i
  {
    var q := InOrder(t);
    var cs, u := Succs(q[i..]), Next(t, q[i].key).0;
    NextCorrect(t, q[i]);
    if i + 1 < |q| {
      assert cs[1..] == Succs(q[i + 1..]);
      TraversalEnds(u, i + 1);
    } else {
      NothingAfter(InOrder(u.left), u.node, InOrder(u.right));
    }
  }

  lemma NothingAfter(a: seq<Node>, n: Node, b: seq<Node>)
    requires var q := a + [n] + b; Sorted(q) && q[|q| - 1] == n
    ensures b == []
  {
    var q := a + [n] + b;
    assert q[|a|] == n;
  }

  lemma SuccsUnfold(t: Tree, q: seq<Node>)
    requires t.Bin? && q != []
    ensures var p, u := Key(q[0].key), Next(t, q[0].key).0;
            && RunSplays(t, Succs(q)) == Turns(p, t) + RunSplays(u, Succs(q[1..]))
            && RunWalks(t, Succs(q)) == Walk(u.right) + RunWalks(u, Succs(q[1..]))
  {
    assert Succs(q)[1..] == Succs(q[1..]);
  }

  lemma {:induction false} SuccsAmortised(t: Tree, q: seq<Node>, n: nat, k: nat)
    requires t.Bin? && |q| == n && Rank(t) == k
    ensures RunSplays(t, Succs(q)) <= 2 * Potential(t) + n * (5 * k + 1)
    decreases n
  {
    if n > 0 {
      var p := Key(q[0].key);
      SuccsUnfold(t, q);
      SplayAmortised(p, t);
      SplaySize(p, t);
      SuccsAmortised(SplayAt(p, t), q[1..], n - 1, k);
      OneMore(n, 5 * k + 1);
    }
  }

  lemma AddUp(first: nat, rest: nat, before: nat, after: nat, n: nat, k: nat)
    requires first + 2 * after <= 2 * before + 5 * k + 1
    requires rest <= 2 * after + n * (5 * k + 1) && before <= n * k
    ensures first + rest <= n * (7 * k + 1) + 5 * k + 1
  {
  }

  /** The splays of a traversal: SPLAY_MIN and then SPLAY_NEXT of every node. */
  lemma TraversalSplays(t: Tree, n: nat, k: nat)
    requires t.Bin? && Size(t) == n && Rank(t) == k
    ensures Turns(LowEnd, t) + RunSplays(SplayAt(LowEnd, t), Succs(InOrder(t))) <= n * (7 * k + 1) + 5 * k + 1
  {
    var u := SplayAt(LowEnd, t);
    SizeIsLength(t);
    SplaySize(LowEnd, t);
    SplayAmortised(LowEnd, t);
    SuccsAmortised(u, InOrder(t), n, k);
    PotentialBound(t);
    AddUp(Turns(LowEnd, t), RunSplays(u, Succs(InOrder(t))), Potential(t), Potential(u), n, k);
  }

  /** Its walks. */
  lemma TraversalWalks(t: Tree)
    requires t.Bin? && Sorted(InOrder(t))
    ensures RunWalks(t, Succs(InOrder(t))) <= 2 * RunSplays(t, Succs(InOrder(t)))
  {
    var q := InOrder(t);
    TraversalContinued(q, 0);
    TraversalEnds(t, 0);
    assert q[0..] == q;
    WalksPaid(t, Succs(q));
    ContinuedAbandonsNothing(Dict(q), t, Succs(q));
  }

  /** The iterations of a traversal that still has the nodes `q` before it. */
  function RestTurns(t: Tree, q: seq<Node>): nat
    decreases |q|
  {
    if q == [] || t.Nil? then 0
    else
      var p := Key(q[0].key);
      var u := SplayAt(p, t);
      Turns(p, t) + Walk(u.right) + RestTurns(u, q[1..])
  }

  /** It is a run of SPLAY_NEXT. */
  lemma {:induction false} RestIsRun(t: Tree, q: seq<Node>)
    requires t.Bin?
    ensures RestTurns(t, q) == RunSplays(t, Succs(q)) + RunWalks(t, Succs(q))
    decreases |q|
  {
    if q != [] {
      SuccsUnfold(t, q);
      RestIsRun(SplayAt(Key(q[0].key), t), q[1..]);
    }
  }

  /** All iterations of SPLAY_FOREACH: SPLAY_MIN, and SPLAY_NEXT of every node. */
  function TraversalTurns(t: Tree): nat {
    StepTurns(t, Least) + RestTurns(MinMax(t, LowEnd).0, InOrder(t))
  }

  ghost function TraversalAllowance(n: nat): nat {
    3 * (n * (7 * Log2(n) + 1) + 5 * Log2(n) + 1)
  }

  lemma Thrice(first: nat, splays: nat, walks: nat, n: nat, k: nat)
    requires k == Log2(n) && first + splays <= n * (7 * k + 1) + 5 * k + 1 && walks <= 2 * splays
    ensures first + (splays + walks) <= TraversalAllowance(n)
  {
  }

  ghost predicate CheapWalks(t: Tree)
    requires t.Bin?
  {
    var u, cs := SplayAt(LowEnd, t), Succs(InOrder(t));
    RunWalks(u, cs) <= 2 * RunSplays(u, cs)
  }

  lemma WalksAreCheap(t: Tree)
    requires t.Bin? && Sorted(InOrder(t))
    ensures CheapWalks(t)
  {
    SplayCorrect(LowEnd, t);
    TraversalWalks(SplayAt(LowEnd, t));
  }

  lemma TraversalBound(t: Tree, n: nat)
    requires t.Bin? && CheapWalks(t) && Size(t) == n
    ensures Turns(LowEnd, t) + RestTurns(SplayAt(LowEnd, t), InOrder(t)) <= TraversalAllowance(n)
  {
    var u, cs, k := SplayAt(LowEnd, t), Succs(InOrder(t)), Log2(n);
    TraversalSplays(t, n, k);
    RestIsRun(u, InOrder(t));
    Thrice(Turns(LowEnd, t), RunSplays(u, cs), RunWalks(u, cs), n, k);
  }

  /** A whole SPLAY_FOREACH over n nodes takes at most 3 (n (7 lg n + 1) + 5 lg n + 1)
      iterations. */
  lemma TraversalWithin(t: Tree)
    requires Sorted(InOrder(t))
    ensures TraversalTurns(t) <= TraversalAllowance(Size(t)) && Size(t) == |InOrder(t)|
  {
    SizeIsLength(t);
    if t.Bin? {
      WalksAreCheap(t);
      TraversalBound(t, Size(t));
    }
  }

  // ---------- Successors that are not followed ----------

  /** The tree after insertions in the order of the sequence. */
  function Grown(q: seq<Node>): Tree {
    if q == [] then Nil else Insert(Grown(q[..|q| - 1]), q[|q| - 1])
  }

  function Chain(q: seq<Node>): Tree {
    if q == [] then Nil else Bin(Chain(q[..|q| - 1]), q[|q| - 1], Nil)
  }

  lemma {:induction false} GrownIsChain(q: seq<Node>)
    requires Sorted(q)
    ensures Grown(q) == Chain(q)
  {
    if q != [] { GrownIsChain(q[..|q| - 1]); }
  }

  /** Splaying the least node of a chain leaves half of the rest in a row. */
  lemma {:induction false} SplayChain(q: seq<Node>)
    requires q != [] && Sorted(q)
    ensures var s := SplayAt(Key(q[0].key), Chain(q));
            && s.node == q[0] && s.right.Bin? == (|q| > 1)
            && (|q| > 1 ==> Walk(s.right) == |q| / 2 - 1)
  {
    var n, p, t := |q|, Key(q[0].key), Chain(q);
    if n == 2 {
      assert q[..1][..0] == [];
      assert Chain(q[..1]) == Bin(Chain([]), q[0], Nil);
      assert Chain([]) == Nil;
      SplayedWithin(p, End, t.left, Link(End, Nil, t.node));
    } else if n > 2 {
      var w, x := q[..n - 2], Bin(Nil, t.node, Nil);
      assert q[..n - 1][..n - 2] == w;
      SplayChain(w);
      SplayedWithin(p, End, Chain(w), Link(End, x, q[n - 2]));
    }
  }

  /** Insert n nodes in order and ask for what follows the first. From then on the
      same question finds the same tree, and costs a walk of half of the nodes every
      time. */
  lemma NextWalksAgain(q: seq<Node>)
    requires Sorted(q) && |q| > 1
    ensures var s := Next(Grown(q), q[0].key).0;
            Size(s) == |q| && Next(s, q[0].key) == (s, q[1]) && Walk(s.right) == |q| / 2 - 1
  {
    GrownIsChain(q);
    SplayChain(q);
    ChainOrder(q);
    var t := Chain(q);
    var s := SplayAt(Key(q[0].key), t);
    SplaySize(Key(q[0].key), t);
    SizeIsLength(t);
    SplaySplits(t, q[0].key);
    LeftmostFirst(s.right);
  }

  lemma {:induction false} ChainOrder(q: seq<Node>)
    ensures InOrder(Chain(q)) == q
  {
    if q != [] { ChainOrder(q[..|q| - 1]); }
  }

  /** So m questions in a row, none of which follows the answer, cost m (n / 2 - 1). */
  lemma {:induction false} NextRunFails(q: seq<Node>, m: nat)
    requires Sorted(q) && |q| > 1
    ensures RunWalks(Next(Grown(q), q[0].key).0, seq(m, i => Succ(q[0]))) == m * (|q| / 2 - 1)
  {
    if m > 0 {
      NextWalksAgain(q);
      NextRunFails(q, m - 1);
      var s := Next(Grown(q), q[0].key).0;
      assert seq(m, i => Succ(q[0]))[1..] == seq(m - 1, i => Succ(q[0]));
      OneMore(m, |q| / 2 - 1);
    }
  }
}
