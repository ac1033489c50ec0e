/** What notice_child of inc/http_task.h does to the capacities of the workers, in
    list order: each connection goes to a worker with most capacity left, the last
    such worker in the list. */
module Dispatch {

  // ---------- One connection ----------

  predicate IsLastMax(s: seq<int>, i: nat) {
    && i < |s|
    && (forall j | 0 <= j < |s| :: s[j] <= s[i])
    && (forall j | i < j < |s| :: s[j] < s[i])
  }

  /** The scan over the first `n` workers: a later one replaces the best so far when
      it has at least as much left. */
  function Best(s: seq<int>, n: nat): (i: nat)
    requires 0 < n <= |s|
    ensures i < n
  {
    if n == 1 then 0
    else
      var i := Best(s, n - 1);
      if s[n - 1] >= s[i] then n - 1 else i
  }

  function LastMax(s: seq<int>): (i: nat)
    requires s != []
    ensures i < |s|
  {
    Best(s, |s|)
  }

  lemma {:induction false} BestIsLastMax(s: seq<int>, n: nat)
    requires 0 < n <= |s|
    ensures forall j | 0 <= j < n :: s[j] <= s[Best(s, n)]
    ensures forall j | Best(s, n) < j < n :: s[j] < s[Best(s, n)]
  {
    if n > 1 { BestIsLastMax(s, n - 1); }
  }

  /** The scan finds the one place that holds a maximum and has none after it. */
  lemma LastMaxCorrect(s: seq<int>, i: nat)
    requires s != []
    ensures IsLastMax(s, i) <==> i == LastMax(s)
  {
    BestIsLastMax(s, |s|);
  }

  function Next(s: seq<int>): (r: seq<int>)
    requires s != []
    ensures |r| == |s|
  {
    var i := LastMax(s);
    s[i := s[i] - 1]
  }

  /** The connection is charged to the last worker with a maximum, and to no other. */
  lemma ChargesLastMax(s: seq<int>, i: nat)
    requires IsLastMax(s, i)
    ensures Next(s)[i] == s[i] - 1
    ensures forall j | 0 <= j < |s| && j != i :: Next(s)[j] == s[j]
  {
    LastMaxCorrect(s, i);
  }

  function After(s: seq<int>, k: nat): (r: seq<int>)
    requires s != []
    ensures |r| == |s|
  {
    if k == 0 then s else Next(After(s, k - 1))
  }

  /** The list position of the worker that gets connection number `k`. */
  function Chosen(s: seq<int>, k: nat): (i: nat)
    requires s != []
    ensures i < |s|
  {
    LastMax(After(s, k))
  }

  // ---------- Sums and extremes ----------

  function Sum(s: seq<int>): int {
    if s == [] then 0 else Sum(s[..|s| - 1]) + s[|s| - 1]
  }

  lemma {:induction false} SumUpdate(s: seq<int>, i: nat, x: int)
    requires i < |s|
    ensures Sum(s[i := x]) == Sum(s) - s[i] + x
  {
    var n := |s| - 1;
    if i == n {
      assert s[i := x][..n] == s[..n];
    } else {
      assert s[i := x][..n] == s[..n][i := x];
      SumUpdate(s[..n], i, x);
    }
  }

  lemma {:induction false} SumMonotone(a: seq<int>, b: seq<int>)
    requires |a| == |b| && forall i | 0 <= i < |a| :: a[i] <= b[i]
    ensures Sum(a) <= Sum(b)
    ensures (exists i | 0 <= i < |a| :: a[i] < b[i]) ==> Sum(a) < Sum(b)
  {
    if a != [] {
      var n := |a| - 1;
      SumMonotone(a[..n], b[..n]);
      if i :| 0 <= i < |a| && a[i] < b[i] {
        assert i < n ==> a[..n][i] < b[..n][i];
      }
    }
  }

  /** Every connection is charged to exactly one worker. */
  lemma {:induction false} TotalFallsByOneEach(s: seq<int>, k: nat)
    requires s != []
    ensures Sum(After(s, k)) == Sum(s) - k
  {
    if k > 0 {
      TotalFallsByOneEach(s, k - 1);
      var r := After(s, k - 1);
      SumUpdate(r, LastMax(r), r[LastMax(r)] - 1);
    }
  }

  // ---------- The greedy choice is optimal ----------

  /** A worker that was charged at all is within one of the largest capacity. */
  ghost predicate Levelled(s: seq<int>, r: seq<int>)
    requires |r| == |s|
  {
    && (forall i | 0 <= i < |s| :: r[i] <= s[i])
    && (forall i, j | 0 <= i < |s| && 0 <= j < |s| && r[i] < s[i] :: r[j] <= r[i] + 1)
  }

  lemma {:induction false} AlwaysLevelled(s: seq<int>, k: nat)
    requires s != []
    ensures Levelled(s, After(s, k))
  {
    if k > 0 {
      AlwaysLevelled(s, k - 1);
      var r := After(s, k - 1);
      LastMaxCorrect(r, LastMax(r));
    }
  }

  /** `t` is what some assignment of `k` connections to the workers leaves. */
  ghost predicate Reachable(s: seq<int>, k: nat, t: seq<int>) {
    |t| == |s| && (forall i | 0 <= i < |s| :: t[i] <= s[i]) && Sum(t) == Sum(s) - k
  }

  lemma AfterIsReachable(s: seq<int>, k: nat)
    requires s != []
    ensures Reachable(s, k, After(s, k))
  {
    TotalFallsByOneEach(s, k);
    AlwaysLevelled(s, k);
  }

  /** From any capacities, no assignment of the same connections leaves a smaller
      maximum or a larger minimum than notice_child does. */
  lemma GreedyIsOptimal(s: seq<int>, k: nat, t: seq<int>, hi: int, lo: int)
    requires s != [] && Reachable(s, k, t)
    requires forall x | x in t :: lo <= x <= hi
    ensures forall x | x in After(s, k) :: lo <= x <= hi
  {
    var r := After(s, k);
    AfterIsReachable(s, k);
    AlwaysLevelled(s, k);
    if j :| 0 <= j < |r| && r[j] > hi {
      forall i | 0 <= i < |r| ensures t[i] <= r[i] {
        assert t[i] in t;
      }
      assert t[j] in t;
      SumMonotone(t, r);
      assert false;
    }
    if j :| 0 <= j < |r| && r[j] < lo {
      assert t[j] in t;
      forall i | 0 <= i < |r| ensures r[i] <= t[i] {
        assert t[i] in t;
      }
      SumMonotone(r, t);
      assert false;
    }
  }

  /** notice_child never looks whether anything is left. No worker is overdrawn
      exactly as long as the connections do not exceed the total capacity. */
  lemma OverdrawnExactly(s: seq<int>, k: nat)
    requires s != [] && forall i | 0 <= i < |s| :: s[i] >= 0
    ensures (forall i | 0 <= i < |s| :: After(s, k)[i] >= 0) <==> k <= Sum(s)
  {
    var r, zero := After(s, k), seq(|s|, i => 0);
    TotalFallsByOneEach(s, k);
    AlwaysLevelled(s, k);
    SumOfZeros(|s|);
    if forall i | 0 <= i < |s| :: r[i] >= 0 {
      SumMonotone(zero, r);
    } else {
      SumMonotone(r, zero);
    }
  }

  lemma {:induction false} SumOfZeros(n: nat)
    ensures Sum(seq(n, i => 0)) == 0
  {
    if n > 0 {
      SumOfZeros(n - 1);
      assert seq(n, i => 0)[..n - 1] == seq(n - 1, i => 0);
    }
  }

  // ---------- From a fresh pool: exact round robin ----------

  /** `n` workers that started with `v` each: all have been charged `q` times, the
      last `m` of the list once more. */
  function Level(n: nat, v: int, q: nat, m: nat): seq<int> {
    seq(n, i requires 0 <= i < n => if i + m >= n then v - q - 1 else v - q)
  }

  lemma LevelStep(n: nat, v: int, q: nat, m: nat)
    requires m < n
    ensures LastMax(Level(n, v, q, m)) == n - 1 - m
    ensures Next(Level(n, v, q, m)) == if m + 1 < n then Level(n, v, q, m + 1) else Level(n, v, q + 1, 0)
  {
    LastMaxCorrect(Level(n, v, q, m), n - 1 - m);
  }

  lemma {:induction false} AfterIsLevel(n: nat, v: int, k: nat, q: nat, m: nat)
    requires m < n && k == q * n + m
    ensures After(seq(n, i => v), k) == Level(n, v, q, m)
    decreases k
  {
    if m > 0 {
      AfterIsLevel(n, v, k - 1, q, m - 1);
      LevelStep(n, v, q, m - 1);
    } else if q > 0 {
      assert k - 1 == (q - 1) * n + (n - 1);
      AfterIsLevel(n, v, k - 1, q - 1, n - 1);
      LevelStep(n, v, q - 1, n - 1);
    }
  }

  /** In a fresh pool the choices go from the tail of the list to its head and start
      over, whatever the number of connections. */
  lemma PicksInTurn(n: nat, v: int, k: nat)
    requires n > 0
    ensures var r := After(seq(n, i => v), k);
            r == Level(n, v, k / n, k % n) && Chosen(seq(n, i => v), k) == n - 1 - k % n
  {
    AfterIsLevel(n, v, k, k / n, k % n);
    LevelStep(n, v, k / n, k % n);
  }

  /** Hence no two workers of a fresh pool ever differ by more than one. */
  lemma FreshPoolIsFair(n: nat, v: int, k: nat)
    requires n > 0
    ensures var r := After(seq(n, i => v), k);
            forall i, j | 0 <= i < n && 0 <= j < n :: r[i] <= r[j] + 1
  {
    PicksInTurn(n, v, k);
  }

  /** Ten fresh workers of 200 connections each, and one connection too many. */
  lemma OverdrawnOnce()
    ensures After(seq(10, i => 200), 2001)[9] == -1
  {
    PicksInTurn(10, 200, 2001);
  }
}
