/** The records that the trees link together, and the order of their keys. */
module Elements {

  datatype Color = Red | Black

  /** A caller's record with its embedded tree entry: `left` and `right` serve both
      kinds of tree, `parent` and `color` only the red-black one. The comparison
      function of the header is the order of the integer `key`, which no operation
      of either tree ever changes. */
  class Node {
    const key: int
    var left: Node?
    var right: Node?
    var parent: Node?
    var color: Color

    constructor (key: int)
      ensures this.key == key
    {
      this.key := key;
    }
  }

  /** The caller's comparison function. */
  function Cmp(a: Node, b: Node): int {
    if a.key < b.key then -1 else if a.key > b.key then 1 else 0
  }

  ghost predicate Below(s: seq<Node>, k: int) {
    forall x | x in s :: x.key < k
  }

  ghost predicate Above(k: int, s: seq<Node>) {
    forall x | x in s :: k < x.key
  }

  /** Strictly increasing keys; in particular no node occurs twice. */
  ghost predicate Sorted(s: seq<Node>) {
    forall i, j | 0 <= i < j < |s| :: s[i].key < s[j].key
  }

  lemma SortedConcat(a: seq<Node>, n: Node, b: seq<Node>)
    ensures Sorted(a + [n] + b) <==> Sorted(a) && Sorted(b) && Below(a, n.key) && Above(n.key, b)
  {
    var s := a + [n] + b;
    assert s[|a|] == n;
    assert forall i | 0 <= i < |a| :: s[i] == a[i];
    assert forall i | 0 <= i < |b| :: s[|a| + 1 + i] == b[i];
    if Sorted(s) {
      forall i, j | 0 <= i < j < |b| ensures b[i].key < b[j].key {
        assert s[|a| + 1 + i].key < s[|a| + 1 + j].key;
      }
    }
  }

  lemma SortedJoin(a: seq<Node>, b: seq<Node>)
    ensures Sorted(a + b) <==> Sorted(a) && Sorted(b) && forall x, y | x in a && y in b :: x.key < y.key
  {
    var s := a + b;
    assert forall i | 0 <= i < |a| :: s[i] == a[i];
    assert forall i | 0 <= i < |b| :: s[|a| + i] == b[i];
    if Sorted(s) {
      forall i, j | 0 <= i < j < |b| ensures b[i].key < b[j].key {
        assert s[|a| + i].key < s[|a| + j].key;
      }
    }
  }

  /** The order of two nodes and three subtrees does not depend on which is on top. */
  lemma SplitThree(a: seq<Node>, x: Node, b: seq<Node>, y: Node, d: seq<Node>)
    ensures a + [x] + (b + [y] + d) == (a + [x] + b) + [y] + d
  {
  }
}
