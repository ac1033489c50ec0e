/** TAILQ of inc/list.h. A link back does not point to the previous element but to
    the slot that holds the forward link; walking backwards reads the slot's
    neighbour, as if an element's pair of links were a queue head. */
module TailQueue {
  import opened QueueEdits

  /** The address of a forward link: a head's `first`, or an element's `next`. */
  datatype Slot = Unset | FirstOf(head: TailQueue) | NextOf(elem: Elem)

  class Elem {
    var next: Elem?
    var prev: Slot

    constructor ()
    {
      next, prev := null, Unset;
    }
  }

  class TailQueue {
    var first: Elem?
    var last: Slot
    ghost var elems: seq<Elem>

    ghost function SlotAt(i: nat): Slot
      requires i <= |elems|
      reads `elems
    {
      if i == 0 then FirstOf(this) else NextOf(elems[i - 1])
    }

    ghost function ElemAt(i: nat): Elem?
      reads `elems
    {
      if i < |elems| then elems[i] else null
    }

    /** Every back link names the slot that holds its element, and `last` names the
        last forward link, which holds null. */
    ghost predicate Valid()
      reads this, elems
    {
      && Distinct(elems) && first == ElemAt(0) && last == SlotAt(|elems|)
      && forall i | 0 <= i < |elems| :: LinkedAt(i)
    }

    ghost predicate LinkedAt(i: nat)
      requires i < |elems|
      reads this, elems
    {
      elems[i].next == ElemAt(i + 1) && elems[i].prev == SlotAt(i)
    }

    // ---------- Slots ----------

    /** The link in the slot. */
    function Load(s: Slot): Elem?
      reads this, if s.NextOf? then {s.elem} else {}
      requires s.NextOf? || s == FirstOf(this)
    {
      if s.NextOf? then s.elem.next else first
    }

    /** The second link of the pair that begins with the slot: a head's `last` or an
        element's `prev`. This is what the cast to a head reads. */
    function Second(s: Slot): Slot
      reads this, if s.NextOf? then {s.elem} else {}
      requires s.NextOf? || s == FirstOf(this)
    {
      if s.NextOf? then s.elem.prev else last
    }

    method Store(s: Slot, x: Elem?)
      requires s.NextOf? || s == FirstOf(this)
      modifies `first, (if s.NextOf? then {s.elem} else {})`next
      ensures Load(s) == x
      ensures s.NextOf? ==> first == old(first)
    {
      match s
      case FirstOf(h) => first := x;
      case NextOf(e) => e.next := x;
    }

    /** An element has been linked in at position `i`: the slot before it holds it, what
        follows names its forward link, and nothing else has changed. */
    twostate lemma LinkedIn(i: nat)
      requires old(Valid()) && i <= |old(elems)| && i < |elems|
      requires elems[i] !in old(elems) && elems == InsertAt(old(elems), i, elems[i])
      requires elems[i].next == old(ElemAt(i)) && elems[i].prev == old(SlotAt(i))
      requires first == if i == 0 then elems[i] else old(first)
      requires last == if i == |old(elems)| then NextOf(elems[i]) else old(last)
      requires forall j | 0 <= j < |old(elems)| ::
                 old(elems)[j].next == (if j == i - 1 then elems[i] else old(elems[j].next))
      requires forall j | 0 <= j < |old(elems)| ::
                 old(elems)[j].prev == (if j == i then NextOf(elems[i]) else old(elems[j].prev))
      ensures Valid()
    {
      InsertIsDistinct(old(elems), i, elems[i]);
      forall j | 0 <= j < |elems| ensures LinkedAt(j) {
        assert j < i ==> old(LinkedAt(j));
        assert j > i ==> old(LinkedAt(j - 1));
      }
    }

    /** The element at position `i` has been linked out. */
    twostate lemma LinkedOut(i: nat)
      requires old(Valid()) && i < |old(elems)| && elems == RemoveAt(old(elems), i)
      requires first == if i == 0 then old(elems[i].next) else old(first)
      requires last == if i == |old(elems)| - 1 then old(elems[i].prev) else old(last)
      requires forall j | 0 <= j < |old(elems)| && j != i ::
                 old(elems)[j].next == (if j == i - 1 then old(elems[i].next) else old(elems[j].next))
      requires forall j | 0 <= j < |old(elems)| && j != i ::
                 old(elems)[j].prev == (if j == i + 1 then old(elems[i].prev) else old(elems[j].prev))
      ensures Valid()
    {
      assert old(LinkedAt(i));
      forall j | 0 <= j < |elems| ensures LinkedAt(j) {
        assert j < i ==> old(LinkedAt(j));
        assert j >= i ==> old(LinkedAt(j + 1));
      }
    }

    lemma Neighbours(e: Elem)
      requires Valid() && e in elems
      ensures e.next != null ==> e.next in elems
      ensures e.prev.NextOf? ==> e.prev.elem in elems
    {
      assert LinkedAt(IndexOf(elems, e));
    }

    // ---------- Edits ----------

    constructor ()
      ensures Valid() && elems == []
    {
      first := null;
      elems := [];
      new;
      last := FirstOf(this);
    }

    /** TAILQ_INSERT_HEAD */
    method InsertHead(elm: Elem)
      requires Valid() && elm !in elems
      modifies this, elm, (if first != null then {first} else {})`prev
      ensures Valid() && elems == Apply(old(elems), AtHead(elm))
    {
      elm.next := first;
      if elm.next != null {
        first.prev := NextOf(elm);
      } else {
        last := NextOf(elm);
      }
      first := elm;
      elm.prev := FirstOf(this);
      elems := InsertAt(elems, 0, elm);
      LinkedIn(0);
    }

    /** TAILQ_INSERT_TAIL */
    method InsertTail(elm: Elem)
      requires Valid() && elm !in elems
      modifies this, elm, (if last.NextOf? then {last.elem} else {})`next
      ensures Valid() && elems == Apply(old(elems), AtTail(elm))
    {
      elm.next := null;
      elm.prev := last;
      Store(last, elm);
      last := NextOf(elm);
      elems := InsertAt(elems, |elems|, elm);
      LinkedIn(|elems| - 1);
    }

    /** TAILQ_INSERT_AFTER */
    method InsertAfter(listelm: Elem, elm: Elem)
      requires Valid() && Allowed(elems, After(listelm, elm))
      modifies `elems, `last, elm, listelm`next, (if listelm.next != null then {listelm.next} else {})`prev
      ensures Valid() && elems == Apply(old(elems), After(listelm, elm))
    {
      ghost var i := IndexOf(elems, listelm);
      assert LinkedAt(i);
      elm.next := listelm.next;
      if elm.next != null {
        elm.next.prev := NextOf(elm);
      } else {
        last := NextOf(elm);
      }
      listelm.next := elm;
      elm.prev := NextOf(listelm);
      elems := InsertAt(elems, i + 1, elm);
      LinkedIn(i + 1);
    }

    /** TAILQ_INSERT_BEFORE */
    method InsertBefore(listelm: Elem, elm: Elem)
      requires Valid() && Allowed(elems, Before(listelm, elm))
      modifies `elems, `first, elm, listelm`prev, (if listelm.prev.NextOf? then {listelm.prev.elem} else {})`next
      ensures Valid() && elems == Apply(old(elems), Before(listelm, elm))
    {
      ghost var i := IndexOf(elems, listelm);
      assert LinkedAt(i);
      elm.prev := listelm.prev;
      elm.next := listelm;
      Store(listelm.prev, elm);
      listelm.prev := NextOf(elm);
      elems := InsertAt(elems, i, elm);
      LinkedIn(i);
    }

    /** TAILQ_REMOVE; the links of `elm` itself are left as they are. */
    method Remove(elm: Elem)
      requires Valid() && elm in elems
      modifies this, (if elm.next != null then {elm.next} else {})`prev
      modifies (if elm.prev.NextOf? then {elm.prev.elem} else {})`next
      ensures Valid() && elems == Apply(old(elems), Take(elm))
    {
      ghost var i := IndexOf(elems, elm);
      assert LinkedAt(i);
      if elm.next != null {
        elm.next.prev := elm.prev;
      } else {
        last := elm.prev;
      }
      Store(elm.prev, elm.next);
      elems := RemoveAt(elems, i);
      LinkedOut(i);
    }

    method Perform(e: Edit<Elem>)
      requires Valid() && Allowed(elems, e)
      modifies this, (set x | x in elems), e.x
      ensures Valid() && elems == Apply(old(elems), e)
    {
      match e
      case AtHead(x) => InsertHead(x);
      case AtTail(x) => InsertTail(x);
      case After(at, x) => Neighbours(at); InsertAfter(at, x);
      case Before(at, x) => Neighbours(at); InsertBefore(at, x);
      case Take(x) => Neighbours(x); Remove(x);
    }

    /** Any sequence of edits that callers are allowed to make. */
    method Replay(edits: seq<Edit<Elem>>)
      requires Valid() && AllowedRun(elems, edits)
      modifies this, (set e | e in elems), (set e | e in edits :: e.x)
      ensures Valid() && elems == ApplyRun(old(elems), edits)
      decreases |edits|
    {
      if edits != [] {
        ApplyElements(elems, edits[0]);
        Perform(edits[0]);
        Replay(edits[1..]);
      }
    }

    /** The sequence determines every link, so an edit that is undone leaves the head
        and all elements of the queue exactly as they were. */
    twostate lemma SameLinks()
      requires old(Valid()) && Valid() && elems == old(elems)
      ensures first == old(first) && last == old(last)
      ensures forall e | e in elems :: e.next == old(e.next) && e.prev == old(e.prev)
    {
      forall e | e in elems ensures e.next == old(e.next) && e.prev == old(e.prev) {
        var i := IndexOf(elems, e);
        assert LinkedAt(i) && old(LinkedAt(i));
      }
    }

    /** Taking out an element that was just inserted, at the head, at the tail, after
        or before another, restores the head and all links of the other elements. */
    method InsertAndRemove(e: Edit<Elem>)
      requires Valid() && Allowed(elems, e) && !e.Take?
      modifies this, (set x | x in elems), e.x
      ensures Valid() && elems == old(elems) && first == old(first) && last == old(last)
      ensures forall x | x in elems :: x.next == old(x.next) && x.prev == old(x.prev)
    {
      RunUndoes(elems, e);
      Replay([e, Take(e.x)]);
      SameLinks();
    }

    // ---------- Traversals ----------

    /** The reinterpretation finds the element before the slot, and null before the
        first one: the head's second link names the last slot, which holds null. */
    lemma BackStep(i: nat)
      requires Valid() && i <= |elems|
      ensures var s := SlotAt(i);
              && (s.NextOf? || s == FirstOf(this)) && (Second(s).NextOf? || Second(s) == FirstOf(this))
              && Load(Second(s)) == if i == 0 then null else elems[i - 1]
    {
      assert elems != [] ==> LinkedAt(|elems| - 1);
      assert i > 0 ==> LinkedAt(i - 1);
      assert i > 1 ==> LinkedAt(i - 2);
    }

    /** TAILQ_LAST */
    method Last() returns (r: Elem?)
      requires Valid()
      ensures r == if elems == [] then null else elems[|elems| - 1]
    {
      BackStep(|elems|);
      r := Load(Second(last));
    }

    /** TAILQ_PREV */
    method Prev(elm: Elem) returns (r: Elem?)
      requires Valid() && elm in elems
      ensures var i := IndexOf(elems, elm); r == if i == 0 then null else elems[i - 1]
    {
      ghost var i := IndexOf(elems, elm);
      assert LinkedAt(i);
      BackStep(i);
      r := Load(Second(elm.prev));
    }

    /** TAILQ_FOREACH */
    method ForEach() returns (visited: seq<Elem>)
      requires Valid()
      ensures visited == elems
    {
      visited := [];
      var x := first;
      while x != null
        invariant visited <= elems && x == ElemAt(|visited|)
        decreases |elems| - |visited|
      {
        assert LinkedAt(|visited|);
        visited := visited + [x];
        x := x.next;
      }
    }

    /** TAILQ_FOREACH_REVERSE */
    method ForEachReverse() returns (visited: seq<Elem>)
      requires Valid()
      ensures visited == Reverse(elems)
    {
      visited := [];
      BackStep(|elems|);
      var x := Load(Second(last));
      ghost var i := |elems|;
      while x != null
        invariant 0 <= i <= |elems| && visited == Reverse(elems[i..])
        invariant x == if i == 0 then null else elems[i - 1]
        decreases i
      {
        i := i - 1;
        ReverseStep(elems, i);
        assert LinkedAt(i);
        visited := visited + [x];
        BackStep(i);
        x := Load(Second(x.prev));
      }
      assert elems[0..] == elems;
    }
  }
}
