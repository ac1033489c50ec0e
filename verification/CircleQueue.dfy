/** CIRCLEQ of inc/list.h: a circle of elements in which the head itself stands after
    the last and before the first element. */
module CircleQueue {
  import opened QueueEdits

  /** What a link points to: the head of the queue, or an element. */
  datatype Link = TheHead | To(elem: Elem)

  class Elem {
    var next: Link
    var prev: Link

    constructor ()
    {
      next, prev := TheHead, TheHead;
    }
  }

  class CircleQueue {
    var first: Link
    var last: Link
    ghost var elems: seq<Elem>

    /** Position -1 and position |elems| are the head. */
    ghost function LinkTo(i: int): Link
      reads `elems
    {
      if 0 <= i < |elems| then To(elems[i]) else TheHead
    }

    ghost predicate LinkedAt(i: nat)
      requires i < |elems|
      reads this, elems
    {
      elems[i].next == LinkTo(i + 1) && elems[i].prev == LinkTo(i - 1)
    }

    ghost predicate Valid()
      reads this, elems
    {
      && Distinct(elems) && first == LinkTo(0) && last == LinkTo(|elems| - 1)
      && forall i | 0 <= i < |elems| :: LinkedAt(i)
    }

    /** An element has been linked in at position `i`: its two neighbours, or the head in
        their place, point to it, and nothing else has changed. */
    twostate lemma LinkedIn(i: nat)
      requires old(Valid()) && i <= |old(elems)| && i < |elems|
      requires elems[i] !in old(elems) && elems == InsertAt(old(elems), i, elems[i])
      requires elems[i].next == old(LinkTo(i)) && elems[i].prev == old(LinkTo(i - 1))
      requires first == if i == 0 then To(elems[i]) else old(first)
      requires last == if i == |old(elems)| then To(elems[i]) else old(last)
      requires forall j | 0 <= j < |old(elems)| ::
                 old(elems)[j].next == (if j == i - 1 then To(elems[i]) else old(elems[j].next))
      requires forall j | 0 <= j < |old(elems)| ::
                 old(elems)[j].prev == (if j == i then To(elems[i]) else old(elems[j].prev))
      ensures Valid()
    {
      InsertIsDistinct(old(elems), i, elems[i]);
      forall j | 0 <= j < |elems| ensures LinkedAt(j) {
        assert j < i ==> old(LinkedAt(j));
        assert j > i ==> old(LinkedAt(j - 1));
      }
    }

    /** The element at position `i` has been linked out. */
    twostate lemma LinkedOut(i: nat)
      requires old(Valid()) && i < |old(elems)| && elems == RemoveAt(old(elems), i)
      requires first == if i == 0 then old(elems[i].next) else old(first)
      requires last == if i == |old(elems)| - 1 then old(elems[i].prev) else old(last)
      requires forall j | 0 <= j < |old(elems)| && j != i ::
                 old(elems)[j].next == (if j == i - 1 then old(elems[i].next) else old(elems[j].next))
      requires forall j | 0 <= j < |old(elems)| && j != i ::
                 old(elems)[j].prev == (if j == i + 1 then old(elems[i].prev) else old(elems[j].prev))
      ensures Valid()
    {
      assert old(LinkedAt(i));
      forall j | 0 <= j < |elems| ensures LinkedAt(j) {
        assert j < i ==> old(LinkedAt(j));
        assert j >= i ==> old(LinkedAt(j + 1));
      }
    }

    lemma Neighbours(e: Elem)
      requires Valid() && e in elems
      ensures e.next.To? ==> e.next.elem in elems
      ensures e.prev.To? ==> e.prev.elem in elems
    {
      assert LinkedAt(IndexOf(elems, e));
    }

    // ---------- Edits ----------

    constructor ()
      ensures Valid() && elems == []
    {
      first, last := TheHead, TheHead;
      elems := [];
    }

    /** CIRCLEQ_INSERT_AFTER */
    method InsertAfter(listelm: Elem, elm: Elem)
      requires Valid() && Allowed(elems, After(listelm, elm))
      modifies `elems, `last, elm, listelm`next, (if listelm.next.To? then {listelm.next.elem} else {})`prev
      ensures Valid() && elems == Apply(old(elems), After(listelm, elm))
    {
      ghost var i := IndexOf(elems, listelm);
      assert LinkedAt(i);
      elm.next := listelm.next;
      elm.prev := To(listelm);
      if listelm.next == TheHead {
        last := To(elm);
      } else {
        listelm.next.elem.prev := To(elm);
      }
      listelm.next := To(elm);
      elems := InsertAt(elems, i + 1, elm);
      LinkedIn(i + 1);
    }

    /** CIRCLEQ_INSERT_BEFORE */
    method InsertBefore(listelm: Elem, elm: Elem)
      requires Valid() && Allowed(elems, Before(listelm, elm))
      modifies `elems, `first, elm, listelm`prev, (if listelm.prev.To? then {listelm.prev.elem} else {})`next
      ensures Valid() && elems == Apply(old(elems), Before(listelm, elm))
    {
      ghost var i := IndexOf(elems, listelm);
      assert LinkedAt(i);
      elm.next := To(listelm);
      elm.prev := listelm.prev;
      if listelm.prev == TheHead {
        first := To(elm);
      } else {
        listelm.prev.elem.next := To(elm);
      }
      listelm.prev := To(elm);
      elems := InsertAt(elems, i, elm);
      LinkedIn(i);
    }

    /** CIRCLEQ_INSERT_HEAD */
    method InsertHead(elm: Elem)
      requires Valid() && elm !in elems
      modifies this, elm, (if first.To? then {first.elem} else {})`prev
      ensures Valid() && elems == Apply(old(elems), AtHead(elm))
    {
      elm.next := first;
      elm.prev := TheHead;
      if last == TheHead {
        last := To(elm);
      } else {
        first.elem.prev := To(elm);
      }
      first := To(elm);
      elems := InsertAt(elems, 0, elm);
      LinkedIn(0);
    }

    /** CIRCLEQ_INSERT_TAIL */
    method InsertTail(elm: Elem)
      requires Valid() && elm !in elems
      modifies this, elm, (if last.To? then {last.elem} else {})`next
      ensures Valid() && elems == Apply(old(elems), AtTail(elm))
    {
      elm.next := TheHead;
      elm.prev := last;
      if first == TheHead {
        first := To(elm);
      } else {
        last.elem.next := To(elm);
      }
      last := To(elm);
      elems := InsertAt(elems, |elems|, elm);
      LinkedIn(|elems| - 1);
    }

    /** CIRCLEQ_REMOVE; the links of `elm` itself are left as they are. */
    method Remove(elm: Elem)
      requires Valid() && elm in elems
      modifies this, (if elm.next.To? then {elm.next.elem} else {})`prev
      modifies (if elm.prev.To? then {elm.prev.elem} else {})`next
      ensures Valid() && elems == Apply(old(elems), Take(elm))
    {
      ghost var i := IndexOf(elems, elm);
      assert LinkedAt(i);
      if elm.next == TheHead {
        last := elm.prev;
      } else {
        elm.next.elem.prev := elm.prev;
      }
      if elm.prev == TheHead {
        first := elm.next;
      } else {
        elm.prev.elem.next := elm.next;
      }
      elems := RemoveAt(elems, i);
      LinkedOut(i);
    }

    method Perform(e: Edit<Elem>)
      requires Valid() && Allowed(elems, e)
      modifies this, (set x | x in elems), e.x
      ensures Valid() && elems == Apply(old(elems), e)
    {
      match e
      case AtHead(x) => InsertHead(x);
      case AtTail(x) => InsertTail(x);
      case After(at, x) => Neighbours(at); InsertAfter(at, x);
      case Before(at, x) => Neighbours(at); InsertBefore(at, x);
      case Take(x) => Neighbours(x); Remove(x);
    }

    /** Any sequence of edits that callers are allowed to make. */
    method Replay(edits: seq<Edit<Elem>>)
      requires Valid() && AllowedRun(elems, edits)
      modifies this, (set e | e in elems), (set e | e in edits :: e.x)
      ensures Valid() && elems == ApplyRun(old(elems), edits)
      decreases |edits|
    {
      if edits != [] {
        ApplyElements(elems, edits[0]);
        Perform(edits[0]);
        Replay(edits[1..]);
      }
    }

    /** The sequence determines every link, so an edit that is undone leaves the head
        and all elements of the queue exactly as they were. */
    twostate lemma SameLinks()
      requires old(Valid()) && Valid() && elems == old(elems)
      ensures first == old(first) && last == old(last)
      ensures forall e | e in elems :: e.next == old(e.next) && e.prev == old(e.prev)
    {
      forall e | e in elems ensures e.next == old(e.next) && e.prev == old(e.prev) {
        var i := IndexOf(elems, e);
        assert LinkedAt(i) && old(LinkedAt(i));
      }
    }

    /** Taking out an element that was just inserted, at the head, at the tail, after
        or before another, restores the head and all links of the other elements. */
    method InsertAndRemove(e: Edit<Elem>)
      requires Valid() && Allowed(elems, e) && !e.Take?
      modifies this, (set x | x in elems), e.x
      ensures Valid() && elems == old(elems) && first == old(first) && last == old(last)
      ensures forall x | x in elems :: x.next == old(x.next) && x.prev == old(x.prev)
    {
      RunUndoes(elems, e);
      Replay([e, Take(e.x)]);
      SameLinks();
    }

    // ---------- Traversals ----------

    /** CIRCLEQ_FOREACH */
    method ForEach() returns (visited: seq<Elem>)
      requires Valid()
      ensures visited == elems
    {
      visited := [];
      var x := first;
      while x != TheHead
        invariant visited <= elems && x == LinkTo(|visited|)
        decreases |elems| - |visited|
      {
        assert LinkedAt(|visited|);
        visited := visited + [x.elem];
        x := x.elem.next;
      }
    }

    /** CIRCLEQ_FOREACH_REVERSE */
    method ForEachReverse() returns (visited: seq<Elem>)
      requires Valid()
      ensures visited == Reverse(elems)
    {
      visited := [];
      var x := last;
      ghost var i := |elems|;
      while x != TheHead
        invariant 0 <= i <= |elems| && visited == Reverse(elems[i..])
        invariant x == LinkTo(i - 1)
        decreases i
      {
        i := i - 1;
        ReverseStep(elems, i);
        assert LinkedAt(i);
        visited := visited + [x.elem];
        x := x.elem.prev;
      }
      assert elems[0..] == elems;
    }
  }
}
