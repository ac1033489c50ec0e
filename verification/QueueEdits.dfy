/** What the doubly linked queues of inc/list.h stand for: a sequence without
    repetition, and the edits on it. */
module QueueEdits {

  predicate Distinct<T(==)>(s: seq<T>) {
    forall i, j | 0 <= i < j < |s| :: s[i] != s[j]
  }

  function IndexOf<T(==)>(s: seq<T>, x: T): (i: nat)
    requires x in s
    ensures i < |s| && s[i] == x && x !in s[..i]
  {
    if s[0] == x then 0 else 1 + IndexOf(s[1..], x)
  }

  datatype Edit<T> = AtHead(x: T) | AtTail(x: T) | After(at: T, x: T) | Before(at: T, x: T) | Take(x: T)

  /** What the macros ask of their caller: a new element is not in the queue, and an
      element that is named as being there is. */
  predicate Allowed<T(==)>(s: seq<T>, e: Edit<T>) {
    match e
    case Take(x) => x in s
    case After(at, x) => at in s && x !in s
    case Before(at, x) => at in s && x !in s
    case _ => e.x !in s
  }

  function InsertAt<T>(s: seq<T>, i: nat, x: T): seq<T>
    requires i <= |s|
  {
    seq(|s| + 1, j requires 0 <= j <= |s| => if j < i then s[j] else if j == i then x else s[j - 1])
  }

  function RemoveAt<T>(s: seq<T>, i: nat): seq<T>
    requires i < |s|
  {
    seq(|s| - 1, j requires 0 <= j < |s| - 1 => if j < i then s[j] else s[j + 1])
  }

  function Apply<T(==)>(s: seq<T>, e: Edit<T>): seq<T>
    requires Allowed(s, e)
  {
    match e
    case AtHead(x) => InsertAt(s, 0, x)
    case AtTail(x) => InsertAt(s, |s|, x)
    case After(at, x) => InsertAt(s, IndexOf(s, at) + 1, x)
    case Before(at, x) => InsertAt(s, IndexOf(s, at), x)
    case Take(x) => RemoveAt(s, IndexOf(s, x))
  }

  /** The two places in plain terms. */
  lemma CutAndPaste<T>(s: seq<T>, i: nat, x: T)
    ensures i <= |s| ==> InsertAt(s, i, x) == s[..i] + [x] + s[i..]
    ensures i < |s| ==> RemoveAt(s, i) == s[..i] + s[i + 1..]
  {
  }

  lemma FirstPlace<T>(a: seq<T>, x: T, b: seq<T>)
    requires x !in a
    ensures IndexOf(a + [x] + b, x) == |a|
  {
    var s := a + [x] + b;
    assert s[|a|] == x;
    assert forall j | 0 <= j < |a| :: s[j] == a[j];
    assert forall j | 0 <= j < IndexOf(s, x) :: s[j] in s[..IndexOf(s, x)];
  }

  /** What each edit makes of a queue. */
  lemma EditsInPlace<T>(s: seq<T>, a: seq<T>, at: T, b: seq<T>, x: T)
    requires x !in s && s == a + [at] + b && at !in a
    ensures Apply(s, AtHead(x)) == [x] + s
    ensures Apply(s, AtTail(x)) == s + [x]
    ensures Apply(s, After(at, x)) == a + [at, x] + b
    ensures Apply(s, Before(at, x)) == a + [x, at] + b
    ensures Apply(s, Take(at)) == a + b
  {
    assert s[|a|] == at;
    FirstPlace(a, at, b);
    CutAndPaste(s, 0, x);
    CutAndPaste(s, |s|, x);
    CutAndPaste(s, |a| + 1, x);
    CutAndPaste(s, |a|, x);
  }

  lemma EmptyEdits<T>(x: T)
    ensures Apply([], AtHead(x)) == [x] == Apply([], AtTail(x))
  {
  }

  predicate AllowedRun<T(==)>(s: seq<T>, es: seq<Edit<T>>)
    decreases |es|
  {
    es == [] || (Allowed(s, es[0]) && AllowedRun(Apply(s, es[0]), es[1..]))
  }

  function ApplyRun<T(==)>(s: seq<T>, es: seq<Edit<T>>): seq<T>
    requires AllowedRun(s, es)
    decreases |es|
  {
    if es == [] then s else ApplyRun(Apply(s, es[0]), es[1..])
  }

  lemma InsertIsDistinct<T>(s: seq<T>, i: nat, x: T)
    requires Distinct(s) && i <= |s| && x !in s
    ensures var r := InsertAt(s, i, x); Distinct(r) && x in r && IndexOf(r, x) == i
  {
    var r := InsertAt(s, i, x);
    assert r[i] == x;
  }

  /** No edit makes an element occur twice. */
  lemma ApplyIsDistinct<T>(s: seq<T>, e: Edit<T>)
    requires Distinct(s) && Allowed(s, e)
    ensures Distinct(Apply(s, e))
  {
    match e
    case AtHead(x) => InsertIsDistinct(s, 0, x);
    case AtTail(x) => InsertIsDistinct(s, |s|, x);
    case After(at, x) => InsertIsDistinct(s, IndexOf(s, at) + 1, x);
    case Before(at, x) => InsertIsDistinct(s, IndexOf(s, at), x);
    case Take(x) =>
  }

  /** Hence none does over any allowed run of edits. */
  lemma {:induction false} RunIsDistinct<T>(s: seq<T>, es: seq<Edit<T>>)
    requires Distinct(s) && AllowedRun(s, es)
    ensures Distinct(ApplyRun(s, es))
    decreases |es|
  {
    if es != [] {
      ApplyIsDistinct(s, es[0]);
      RunIsDistinct(Apply(s, es[0]), es[1..]);
    }
  }

  /** Wherever an element was inserted, taking it out again restores the sequence. */
  lemma TakeUndoes<T>(s: seq<T>, e: Edit<T>)
    requires Distinct(s) && Allowed(s, e) && !e.Take?
    ensures Allowed(Apply(s, e), Take(e.x))
    ensures Apply(Apply(s, e), Take(e.x)) == s
  {
    var i := match e
      case AtHead(x) => 0
      case AtTail(x) => |s|
      case After(at, x) => IndexOf(s, at) + 1
      case Before(at, x) => IndexOf(s, at);
    assert Apply(s, e) == InsertAt(s, i, e.x);
    InsertIsDistinct(s, i, e.x);
    RemoveInserted(s, i, e.x);
  }

  lemma RunUndoes<T>(s: seq<T>, e: Edit<T>)
    requires Distinct(s) && Allowed(s, e) && !e.Take?
    ensures var es := [e, Take(e.x)]; AllowedRun(s, es) && ApplyRun(s, es) == s
  {
    TakeUndoes(s, e);
    var es, t := [e, Take(e.x)], Apply(s, e);
    assert es[1..] == [Take(e.x)] && es[1..][1..] == [];
    assert ApplyRun(t, es[1..]) == ApplyRun(Apply(t, Take(e.x)), []);
  }

  lemma ApplyElements<T>(s: seq<T>, e: Edit<T>)
    requires Allowed(s, e)
    ensures forall x | x in Apply(s, e) :: x in s || x == e.x
  {
  }

  lemma RemoveInserted<T>(s: seq<T>, i: nat, x: T)
    requires i <= |s|
    ensures RemoveAt(InsertAt(s, i, x), i) == s
  {
  }

  function Reverse<T>(s: seq<T>): (r: seq<T>)
    ensures |r| == |s|
  {
    if s == [] then [] else Reverse(s[1..]) + [s[0]]
  }

  lemma {:induction false} ReverseAt<T>(s: seq<T>, i: nat)
    requires i < |s|
    ensures Reverse(s)[i] == s[|s| - 1 - i]
  {
    if i < |s| - 1 { ReverseAt(s[1..], i); }
  }

  /** The suffix from `i` on, reversed, grows at its end when `i` goes down. */
  lemma ReverseStep<T>(s: seq<T>, i: nat)
    requires i < |s|
    ensures Reverse(s[i..]) == Reverse(s[i + 1..]) + [s[i]]
  {
    assert s[i..][1..] == s[i + 1..];
  }
}
