/** What either search tree stands for: a finite map from keys to nodes, and the
    operations on it. */
module Dictionary {
  import opened Elements

  /** The finite map from keys to nodes that a sorted sequence stands for. */
  ghost function Dict(s: seq<Node>): (m: map<int, Node>)
    requires Sorted(s)
    ensures forall x | x in s :: x.key in m && m[x.key] == x
    ensures forall k | k in m :: m[k] in s && m[k].key == k
  {
    map x | x in s :: x.key := x
  }

  /** A dictionary is determined by its entries. */
  lemma DictIs(s: seq<Node>, m: map<int, Node>)
    requires Sorted(s)
    requires forall x | x in s :: x.key in m && m[x.key] == x
    requires forall k | k in m :: m[k] in s && m[k].key == k
    ensures Dict(s) == m
  {
    var d := Dict(s);
    forall k | k in d ensures k in m && m[k] == d[k] {
      assert d[k] in s;
    }
    forall k | k in m ensures k in d {
      assert m[k] in s;
    }
  }

  /** Adding one node under a new key, wherever it goes in the order. */
  lemma DictAdd(s: seq<Node>, n: Node, t: seq<Node>)
    requires Sorted(s) && Sorted(t)
    requires forall x :: x in t <==> x in s || x == n
    requires forall x | x in s :: x.key != n.key
    ensures n.key !in Dict(s)
    ensures Dict(t) == Dict(s)[n.key := n]
    ensures Dict(s) == Dict(t) - {n.key}
  {
    DictIs(t, Dict(s)[n.key := n]);
  }

  lemma DictInsert(a: seq<Node>, n: Node, b: seq<Node>)
    requires Sorted(a + b) && Below(a, n.key) && Above(n.key, b)
    ensures Sorted(a + [n] + b)
    ensures n.key !in Dict(a + b)
    ensures Dict(a + [n] + b) == Dict(a + b)[n.key := n]
  {
    SortedInsert(a, n, b);
    DictAdd(a + b, n, a + [n] + b);
  }

  lemma SortedInsert(a: seq<Node>, n: Node, b: seq<Node>)
    requires Below(a, n.key) && Above(n.key, b)
    ensures Sorted(a + b) <==> Sorted(a + [n] + b)
  {
    SortedJoin(a, b);
    SortedConcat(a, n, b);
  }

  lemma DictRemove(a: seq<Node>, n: Node, b: seq<Node>)
    requires Sorted(a + [n] + b)
    ensures Sorted(a + b)
    ensures Dict(a + b) == Dict(a + [n] + b) - {n.key}
  {
    assert Below(a, n.key) && Above(n.key, b) by {
      SortedConcat(a, n, b);
    }
    SortedInsert(a, n, b);
    DictAdd(a + b, n, a + [n] + b);
  }

  function Lookup(m: map<int, Node>, k: int): Node? {
    if k in m then m[k] else null
  }

  /** `r` is what comes right after `n`, or null if `n` is the last. */
  ghost predicate IsNext(q: seq<Node>, n: Node, r: Node?) {
    exists i :: NextAt(q, i, n, r)
  }

  ghost predicate NextAt(q: seq<Node>, i: int, n: Node, r: Node?) {
    0 <= i < |q| && q[i] == n && r == if i + 1 < |q| then q[i + 1] else null
  }

  function Head(q: seq<Node>): Node? {
    if q == [] then null else q[0]
  }

  /** One step of a traversal that has visited `v` and now visits `x`. */
  lemma VisitNext(q: seq<Node>, v: seq<Node>, x: Node, r: Node?)
    requires Sorted(q) && |v| < |q| && v == q[..|v|] && x == q[|v|] && IsNext(q, x, r)
    ensures v + [x] == q[..|v| + 1]
    ensures r == if |v| + 1 < |q| then q[|v| + 1] else null
  {
    var i :| NextAt(q, i, x, r);
    assert i == |v|;
  }

  /** The nodes of a tree are the values of its map. */
  ghost predicate Holds(m: map<int, Node>, s: set<Node>) {
    && (forall x | x in s :: x.key in m && m[x.key] == x)
    && (forall k | k in m :: m[k] in s && m[k].key == k)
  }

  lemma HoldsIfSame(q: seq<Node>, s: set<Node>)
    requires Sorted(q) && forall x: Node :: x in s <==> x in q
    ensures Holds(Dict(q), s)
  {
  }

  lemma HoldsIsValues(m: map<int, Node>, s: set<Node>)
    requires Holds(m, s)
    ensures forall x: Node :: x in s <==> Lookup(m, x.key) == x
  {
  }

  lemma SetsUpdate(m: map<int, Node>, s: set<Node>, n: Node, m': map<int, Node>, s': set<Node>)
    requires forall x: Node :: x in s <==> Lookup(m, x.key) == x
    requires forall x: Node :: x in s' <==> Lookup(m', x.key) == x
    requires n.key in m ==> m[n.key].key == n.key
    ensures m' == m ==> s' == s
    ensures n.key !in m && m' == m[n.key := n] ==> s' == s + {n}
    ensures n.key in m && m' == m - {n.key} ==> s' == s - {m[n.key]}
  {
  }

  lemma HoldsUpdate(m: map<int, Node>, s: set<Node>, n: Node, m': map<int, Node>, s': set<Node>)
    requires Holds(m, s) && Holds(m', s')
    ensures m' == m ==> s' == s
    ensures n.key !in m && m' == m[n.key := n] ==> s' == s + {n}
    ensures n.key in m && m' == m - {n.key} ==> s' == s - {m[n.key]}
  {
    HoldsIsValues(m, s);
    HoldsIsValues(m', s');
    assert n.key in m ==> m[n.key].key == n.key;
    SetsUpdate(m, s, n, m', s');
  }

  // ---------- Operations and runs ----------

  datatype Op = Put(n: Node) | Delete(k: int) | Get(k: int) | Least | Greatest

  /** What `op` makes of a map from keys to nodes. */
  ghost function DictNext(m: map<int, Node>, op: Op): map<int, Node> {
    match op
    case Put(n) => if n.key in m then m else m[n.key := n]
    case Delete(k) => m - {k}
    case _ => m
  }

  /** What `op` answers on a map from keys to nodes. If the updates are `silent` they
      answer nothing; otherwise they answer with the node that had the key. */
  ghost predicate DictAnswers(m: map<int, Node>, op: Op, r: Node?, silent: bool) {
    match op
    case Put(n) => r == if silent then null else Lookup(m, n.key)
    case Delete(k) => r == if silent then null else Lookup(m, k)
    case Get(k) => r == Lookup(m, k)
    case Least => IsExtreme(m, r, -1)
    case Greatest => IsExtreme(m, r, 1)
  }

  ghost predicate IsExtreme(m: map<int, Node>, r: Node?, sign: int) {
    if r == null then m == map[]
    else Lookup(m, r.key) == r && forall k | k in m :: sign * k <= sign * r.key
  }

  lemma ExtremeEnds(s: seq<Node>)
    requires Sorted(s)
    ensures s == [] ==> Dict(s) == map[]
    ensures s != [] ==> IsExtreme(Dict(s), s[0], -1) && IsExtreme(Dict(s), s[|s| - 1], 1)
  {
    var m := Dict(s);
    forall k | k in m ensures s != [] && s[0].key <= k <= s[|s| - 1].key {
      assert m[k] in s;
    }
  }

  ghost function DictRun(m: map<int, Node>, ops: seq<Op>): map<int, Node>
    decreases |ops|
  {
    if ops == [] then m else DictRun(DictNext(m, ops[0]), ops[1..])
  }

  ghost predicate DictRunAnswers(m: map<int, Node>, ops: seq<Op>, rs: seq<Node?>, silent: bool)
    decreases |ops|
  {
    && |rs| == |ops|
    && (ops != [] ==>
          && DictAnswers(m, ops[0], rs[0], silent)
          && DictRunAnswers(DictNext(m, ops[0]), ops[1..], rs[1..], silent))
  }

  lemma AnswersCons(m: map<int, Node>, ops: seq<Op>, r: Node?, rs: seq<Node?>, silent: bool)
    requires ops != [] && DictAnswers(m, ops[0], r, silent)
    requires DictRunAnswers(DictNext(m, ops[0]), ops[1..], rs, silent)
    ensures DictRunAnswers(m, ops, [r] + rs, silent)
  {
    assert ([r] + rs)[1..] == rs;
  }
}
