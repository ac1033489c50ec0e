/** The worker pool of inc/http_task.h: a singly linked list of workers and a counter
    that the operations do not keep equal to the length of the list. */
module WorkerPool {
  import Dispatch
  import opened QueueEdits

  const NPROC_MAX_NUM := 10
  const MAX_FD_NUM := 200

  // ---------- The pool as a value ----------

  /** The counter and the process ids in list order; -1 is a free place. */
  datatype State = State(nProc: int, pids: seq<int>)

  /** delete_pool_obj: the first worker with that id goes, the counter always does. */
  function Deleted(s: State, pid: int): State {
    State(s.nProc - 1, if pid in s.pids then RemoveAt(s.pids, IndexOf(s.pids, pid)) else s.pids)
  }

  /** insert_pool: a new worker at the head, if the counter allows; the counter stays. */
  function Inserted(s: State, pid: int): State {
    if s.nProc < NPROC_MAX_NUM then s.(pids := [pid] + s.pids) else s
  }

  /** insert_pool_obj: the first free place gets the id. */
  function Filled(s: State, pid: int): State {
    if -1 in s.pids then State(s.nProc + 1, s.pids[IndexOf(s.pids, -1) := pid]) else s
  }

  /** handler_dead_processor in the parent, after a successful fork. */
  function Replaced(s: State, dead: int, born: int): State {
    Inserted(Deleted(s, dead), born)
  }

  datatype Death = Death(dead: int, born: int)

  function AfterDeaths(s: State, ds: seq<Death>): State
    decreases |ds|
  {
    if ds == [] then s else AfterDeaths(Replaced(s, ds[0].dead, ds[0].born), ds[1..])
  }

  /** The number of deaths of processes that were not in the pool at the time. */
  function Unknown(s: State, ds: seq<Death>): nat
    decreases |ds|
  {
    if ds == [] then 0
    else (if ds[0].dead in s.pids then 0 else 1) + Unknown(Replaced(s, ds[0].dead, ds[0].born), ds[1..])
  }

  /** Over any run of deaths from a counter of at most ten, every death lowers the
      counter, although a worker is put back; the list grows by one for each death
      of a process that is not in the pool, and by nothing else. */
  lemma {:induction false} DeathsCounted(s: State, ds: seq<Death>)
    requires s.nProc <= NPROC_MAX_NUM
    ensures AfterDeaths(s, ds).nProc == s.nProc - |ds|
    ensures |AfterDeaths(s, ds).pids| == |s.pids| + Unknown(s, ds)
    decreases |ds|
  {
    if ds != [] {
      DeathsCounted(Replaced(s, ds[0].dead, ds[0].born), ds[1..]);
    }
  }

  // ---------- Which ids are in the pool ----------

  /** The ids after a run of deaths, counted: each death takes its id out once, if it is
      there, and each birth puts its id in. */
  ghost function Census(ids: multiset<int>, ds: seq<Death>): multiset<int>
    decreases |ds|
  {
    if ds == [] then ids else Census(ids - multiset{ds[0].dead} + multiset{ds[0].born}, ds[1..])
  }

  lemma RemovedOnce(q: seq<int>, i: nat)
    requires i < |q|
    ensures multiset(RemoveAt(q, i)) == multiset(q) - multiset{q[i]}
  {
    CutAndPaste(q, i, 0);
    assert q == q[..i] + [q[i]] + q[i + 1..];
  }

  lemma {:induction false} DeathsCensus(s: State, ds: seq<Death>)
    requires s.nProc <= NPROC_MAX_NUM
    ensures multiset(AfterDeaths(s, ds).pids) == Census(multiset(s.pids), ds)
    decreases |ds|
  {
    if ds != [] {
      var d := ds[0];
      if d.dead in s.pids { RemovedOnce(s.pids, IndexOf(s.pids, d.dead)); }
      assert multiset(Replaced(s, d.dead, d.born).pids) == multiset(s.pids) - multiset{d.dead} + multiset{d.born};
      DeathsCensus(Replaced(s, d.dead, d.born), ds[1..]);
    }
  }

  /** A fork never returns the id of a process that is still alive. */
  ghost predicate ForksAreNew(alive: set<int>, ds: seq<Death>)
    decreases |ds|
  {
    ds == [] ||
    (ds[0].born !in alive - {ds[0].dead} && ForksAreNew(alive - {ds[0].dead} + {ds[0].born}, ds[1..]))
  }

  ghost predicate Outlives(x: int, ds: seq<Death>, i: nat) {
    forall j | i <= j < |ds| :: ds[j].dead != x
  }

  /** `x` was there or has been born, and has not died since. */
  ghost predicate IsAlive(x: int, ids: seq<int>, ds: seq<Death>) {
    || (x in ids && Outlives(x, ds, 0))
    || exists i: nat | i < |ds| :: ds[i].born == x && Outlives(x, ds, i + 1)
  }

  lemma AliveStep(x: int, ids: seq<int>, ds: seq<Death>, later: seq<int>)
    requires ds != [] && (x in later <==> (x in ids && x != ds[0].dead) || x == ds[0].born)
    ensures IsAlive(x, later, ds[1..]) <==> IsAlive(x, ids, ds)
  {
    var rest := ds[1..];
    assert forall j | 0 <= j < |rest| :: rest[j] == ds[j + 1];
    assert forall i: nat | i < |ds| :: Outlives(x, rest, i) <==> Outlives(x, ds, i + 1);
    if IsAlive(x, ids, ds) && !(x in ids && Outlives(x, ds, 0)) {
      var i: nat :| i < |ds| && ds[i].born == x && Outlives(x, ds, i + 1);
      assert i > 0 ==> rest[i - 1].born == x && Outlives(x, rest, i - 1 + 1);
    }
    if IsAlive(x, later, rest) && !(x in later && Outlives(x, rest, 0)) {
      var i: nat :| i < |rest| && rest[i].born == x && Outlives(x, rest, i + 1);
      assert ds[i + 1].born == x && Outlives(x, ds, i + 1 + 1);
    }
    if x in later && Outlives(x, rest, 0) && x == ds[0].born {
      assert ds[0].born == x && Outlives(x, ds, 0 + 1);
    }
  }

  /** After any run of deaths the ids are the old ones without those that died, and the
      born ones that are still alive, each once; the last birth is at the head. */
  lemma {:induction false} AliveAreInPool(s: State, ds: seq<Death>)
    requires s.nProc <= NPROC_MAX_NUM && Distinct(s.pids) && ForksAreNew((set x | x in s.pids), ds)
    ensures var ids := AfterDeaths(s, ds).pids; Distinct(ids) && forall x :: x in ids <==> IsAlive(x, s.pids, ds)
    ensures ds != [] ==> AfterDeaths(s, ds).pids != [] && AfterDeaths(s, ds).pids[0] == ds[|ds| - 1].born
    decreases |ds|
  {
    if ds != [] {
      var d, next := ds[0], Replaced(s, ds[0].dead, ds[0].born);
      ReplacedElements(s, d);
      assert (set x | x in next.pids) == (set x | x in s.pids) - {d.dead} + {d.born};
      AliveAreInPool(next, ds[1..]);
      forall x ensures x in AfterDeaths(s, ds).pids <==> IsAlive(x, s.pids, ds) {
        AliveStep(x, s.pids, ds, next.pids);
      }
    }
  }

  lemma ReplacedElements(s: State, d: Death)
    requires s.nProc <= NPROC_MAX_NUM && Distinct(s.pids) && (d.born in s.pids ==> d.born == d.dead)
    ensures var q := Replaced(s, d.dead, d.born).pids;
            && Distinct(q) && q != [] && q[0] == d.born
            && forall x :: x in q <==> (x in s.pids && x != d.dead) || x == d.born
  {
    var r := Deleted(s, d.dead).pids;
    assert Distinct(r) && forall x :: x in r <==> x in s.pids && x != d.dead by {
      if d.dead in s.pids {
        var i := IndexOf(s.pids, d.dead);
        CutAndPaste(s.pids, i, 0);
        assert forall j | 0 <= j < |s.pids| && j != i :: s.pids[j] == r[if j < i then j else j - 1];
      }
    }
    var q := Replaced(s, d.dead, d.born).pids;
    assert q == [d.born] + r;
    assert forall j | 0 < j < |q| :: q[j] == r[j - 1];
  }

  /** So a full pool stays within its maximum exactly when every process that dies is
      in the pool. */
  lemma FullPoolBound(s: State, ds: seq<Death>)
    requires s.nProc <= NPROC_MAX_NUM && |s.pids| == NPROC_MAX_NUM
    ensures |AfterDeaths(s, ds).pids| <= NPROC_MAX_NUM <==> Unknown(s, ds) == 0
    ensures |AfterDeaths(s, ds).pids| >= NPROC_MAX_NUM
  {
    DeathsCounted(s, ds);
  }

  /** The list never gets shorter as long as the counter is at most ten, so a pool
      that holds a worker is never emptied. */
  lemma NeverEmptied(s: State, ds: seq<Death>)
    requires s.nProc <= NPROC_MAX_NUM
    ensures |AfterDeaths(s, ds).pids| >= |s.pids|
    ensures s.pids != [] ==> AfterDeaths(s, ds).pids != []
  {
    DeathsCounted(s, ds);
  }

  /** A death the pool does not know of makes it longer than its maximum. */
  lemma BoundCanFail()
    ensures var s := State(10, [1, 2, 3, 4, 5, 6, 7, 8, 9, 10]);
            AfterDeaths(s, [Death(99, 11)]) == State(9, [11, 1, 2, 3, 4, 5, 6, 7, 8, 9, 10])
  {
    var s := State(10, [1, 2, 3, 4, 5, 6, 7, 8, 9, 10]);
    assert Replaced(s, 99, 11).pids == [11, 1, 2, 3, 4, 5, 6, 7, 8, 9, 10];
    assert AfterDeaths(s, [Death(99, 11)]) == AfterDeaths(Replaced(s, 99, 11), []);
  }

  lemma FirstIndex(q: seq<int>, i: nat, x: int)
    requires i < |q| && q[i] == x && x !in q[..i]
    ensures IndexOf(q, x) == i
  {
    assert forall j | 0 <= j < i :: q[j] in q[..i];
  }

  /** The ids once `i` of the forks are in. */
  function Partly(forks: seq<int>, i: nat): seq<int> {
    seq(|forks|, j requires 0 <= j < |forks| => if j < i then forks[j] else -1)
  }

  /** The ids fill the places in list order. */
  lemma FillsNext(forks: seq<int>, i: nat, n: int)
    requires i < |forks| && forall p | p in forks :: p > 0
    ensures Filled(State(n, Partly(forks, i)), forks[i]) == State(n + 1, Partly(forks, i + 1))
  {
    var q := Partly(forks, i);
    assert forall j | 0 <= j < i :: forks[j] in forks;
    assert q[i] == -1;
    FirstIndex(q, i, -1);
    assert q[i := forks[i]] == Partly(forks, i + 1);
  }

  /** One more answer. */
  lemma AnswerMore(ids: seq<int>, s: seq<int>, pids: seq<int>, pid: int)
    requires s != [] && |ids| == |s|
    requires forall j | 0 <= j < |pids| :: pids[j] == ids[Dispatch.Chosen(s, j)]
    requires pid == ids[Dispatch.Chosen(s, |pids|)]
    ensures forall j | 0 <= j < |pids| + 1 :: (pids + [pid])[j] == ids[Dispatch.Chosen(s, j)]
  {
  }

  // ---------- The pool on the heap ----------

  class Processor {
    var pid: int
    var nleft: int
    var status: int
    var next: Processor?

    /** proc_alloc */
    constructor ()
      ensures pid == -1 && nleft == MAX_FD_NUM == 200 && status == 0
    {
      pid, nleft, status, next := -1, MAX_FD_NUM, 0, null;
    }
  }

  /** What proc_alloc gives a worker besides its id. */
  ghost predicate Unused(p: Processor)
    reads p
  {
    p.nleft == MAX_FD_NUM && p.status == 0
  }

  class Pool {
    var nProc: int
    var first: Processor?
    ghost var procs: seq<Processor>

    ghost predicate LinkedAt(i: nat)
      requires i < |procs|
      reads `procs, procs
    {
      procs[i].next == ProcAt(i + 1)
    }

    ghost function ProcAt(i: nat): Processor?
      reads `procs
    {
      if i < |procs| then procs[i] else null
    }

    ghost predicate Valid()
      reads `first, `procs, procs
    {
      Distinct(procs) && first == ProcAt(0) && forall i | 0 <= i < |procs| :: LinkedAt(i)
    }

    ghost function Pids(): (r: seq<int>)
      reads `procs, procs
      ensures |r| == |procs|
    {
      var ps := procs;
      seq(|ps|, i requires 0 <= i < |ps| reads ps => ps[i].pid)
    }

    /** The capacities left, in list order. */
    ghost function Lefts(): (r: seq<int>)
      reads `procs, procs
      ensures |r| == |procs|
    {
      var ps := procs;
      seq(|ps|, i requires 0 <= i < |ps| reads ps => ps[i].nleft)
    }

    ghost function TheState(): State
      reads this, procs
    {
      State(nProc, Pids())
    }

    /** The list is as it was as long as its links are. */
    twostate lemma StillLinked()
      requires old(Valid()) && procs == old(procs) && first == old(first)
      requires forall p | p in procs :: p.next == old(p.next)
      ensures Valid()
    {
      forall i | 0 <= i < |procs| ensures LinkedAt(i) {
        assert old(LinkedAt(i));
      }
    }

    constructor ()
      ensures Valid() && procs == [] && nProc == 0
    {
      nProc, first, procs := 0, null, [];
    }

    /** SLIST_INSERT_HEAD */
    method InsertHead(item: Processor)
      requires Valid() && item !in procs
      modifies `first, `procs, item`next
      ensures Valid() && procs == [item] + old(procs)
    {
      item.next := first;
      first := item;
      procs := [item] + procs;
      forall i | 0 <= i < |procs| ensures LinkedAt(i) {
        assert i > 0 ==> old(LinkedAt(i - 1));
      }
    }

    /** create_proc_pool */
    method CreateProcPool()
      requires Valid()
      modifies `first, `procs
      ensures Valid() && nProc == old(nProc)
      ensures |procs| == NPROC_MAX_NUM + |old(procs)| && procs[NPROC_MAX_NUM..] == old(procs)
      ensures forall i | 0 <= i < NPROC_MAX_NUM :: procs[i].pid == -1 && Unused(procs[i]) && fresh(procs[i])
    {
      for i := 0 to NPROC_MAX_NUM
        invariant Valid() && |procs| == i + |old(procs)| && procs[i..] == old(procs)
        invariant forall j | 0 <= j < i :: procs[j].pid == -1 && Unused(procs[j]) && fresh(procs[j])
      {
        var item := new Processor();
        InsertHead(item);
      }
    }

    /** insert_pool_obj */
    method InsertPoolObj(pid: int)
      requires Valid()
      modifies `nProc, (set p | p in procs)`pid
      ensures Valid() && TheState() == Filled(old(TheState()), pid)
      ensures -1 !in old(Pids()) ==> Pids() == old(Pids()) && nProc == old(nProc)
      ensures forall i | 0 <= i < |procs| && old(Pids())[i] == -1 && -1 !in old(Pids())[..i] ::
                && procs[i].pid == pid && nProc == old(nProc) + 1
                && forall j | 0 <= j < |procs| && j != i :: Pids()[j] == old(Pids())[j]
    {
      ghost var q := Pids();
      var item := first;
      ghost var i := 0;
      while item != null
        invariant i <= |procs| && item == ProcAt(i)
        invariant -1 !in q[..i] && Valid() && Pids() == q && nProc == old(nProc)
        decreases |procs| - i
      {
        assert LinkedAt(i) && q[i] == item.pid;
        if item.pid == -1 {
          item.pid := pid;
          nProc := nProc + 1;
          assert Pids() == q[i := pid];
          FirstIndex(q, i, -1);
          StillLinked();
          return;
        }
        i := i + 1;
        item := item.next;
      }
    }

    /** inc/http_task.h:86-95: the link that holds `item` is led past it. */
    method LinkOut(pre: Processor, item: Processor, ghost i: nat)
      requires Valid() && i < |procs| && item == procs[i] && pre == procs[if i == 0 then 0 else i - 1]
      modifies `first, `procs, pre`next
      ensures Valid() && procs == RemoveAt(old(procs), i)
    {
      assert LinkedAt(i);
      if item == first {
        first := item.next;
      } else {
        pre.next := item.next;
      }
      procs := RemoveAt(procs, i);
      UnlinkedAt(i);
    }

    /** The worker at `i`, the first with that id, goes. */
    method Discharge(pre: Processor, item: Processor, pid: int, ghost i: nat)
      requires Valid() && i < |procs| && item == procs[i] && pre == procs[if i == 0 then 0 else i - 1]
      requires item.pid == pid && pid !in Pids()[..i]
      modifies `first, `procs, pre`next
      ensures Valid() && pid in old(Pids()) && IndexOf(old(Pids()), pid) == i
      ensures procs == RemoveAt(old(procs), i) && Pids() == RemoveAt(old(Pids()), i)
    {
      ghost var q := Pids();
      assert q[i] == pid;
      FirstIndex(q, i, pid);
      LinkOut(pre, item, i);
      assert Pids() == RemoveAt(q, i);
    }

    /** delete_pool_obj */
    method DeletePoolObj(pid: int)
      requires Valid()
      modifies `nProc, `first, `procs, (set p | p in procs)`next
      ensures Valid() && TheState() == Deleted(old(TheState()), pid) && nProc == old(nProc) - 1
      ensures procs == if pid in old(Pids()) then RemoveAt(old(procs), IndexOf(old(Pids()), pid)) else old(procs)
    {
      ghost var q := Pids();
      var pre := first;
      var item := first;
      ghost var i := 0;
      while item != null
        invariant i <= |procs| && item == ProcAt(i) && pre == ProcAt(if i == 0 then 0 else i - 1)
        invariant pid !in q[..i] && Valid() && Pids() == q
        decreases |procs| - i
      {
        assert LinkedAt(i) && q[i] == item.pid;
        if item.pid == pid {
          Discharge(pre, item, pid, i);
          break;
        }
        pre := item;
        i := i + 1;
        item := item.next;
      }
      nProc := nProc - 1;
    }

    twostate lemma UnlinkedAt(i: nat)
      requires old(Valid()) && i < |old(procs)| && procs == RemoveAt(old(procs), i)
      requires first == if i == 0 then old(procs[i].next) else old(first)
      requires forall j | 0 <= j < |old(procs)| && j != i ::
                 old(procs)[j].next == if j == i - 1 then old(procs[i].next) else old(procs[j].next)
      ensures Valid()
    {
      assert old(LinkedAt(i));
      forall j | 0 <= j < |procs| ensures LinkedAt(j) {
        assert j < i ==> old(LinkedAt(j));
        assert j >= i ==> old(LinkedAt(j + 1));
      }
    }

    /** insert_pool */
    method InsertPool(pid: int)
      requires Valid()
      modifies `first, `procs
      ensures Valid() && TheState() == Inserted(old(TheState()), pid)
      ensures nProc < NPROC_MAX_NUM ==>
                && |procs| == |old(procs)| + 1 && procs[1..] == old(procs)
                && fresh(procs[0]) && Unused(procs[0]) && procs[0].pid == pid
      ensures nProc >= NPROC_MAX_NUM ==> procs == old(procs)
    {
      if nProc < NPROC_MAX_NUM {
        var item := new Processor();
        item.pid := pid;
        InsertHead(item);
        assert Pids() == [pid] + old(Pids());
      }
    }

    /** handler_dead_processor, in the parent; `born` is the result of a fork that
        succeeded. */
    method HandlerDeadProcessor(pid: int, born: int)
      requires Valid() && born > 0
      modifies `nProc, `first, `procs, (set p | p in procs)`next
      ensures Valid() && TheState() == Replaced(old(TheState()), pid, born)
      ensures forall p | p in procs :: p in old(procs) || fresh(p)
      ensures old(nProc) <= NPROC_MAX_NUM ==>
                && procs != [] && fresh(procs[0]) && Unused(procs[0]) && procs[0].pid == born
                && procs[1..] == if pid in old(Pids()) then RemoveAt(old(procs), IndexOf(old(Pids()), pid))
                                 else old(procs)
    {
      DeletePoolObj(pid);
      assert forall i | 0 <= i < |procs| :: procs[i] in old(procs);
      InsertPool(born);
      assert forall i | 0 <= i < |procs| :: procs[i] in old(procs) || fresh(procs[i]);
    }

    /** inc/http_task.h:247: one connection for the worker at `m`. */
    method Charge(pre: Processor, ghost m: nat)
      requires Valid() && m < |procs| && pre == procs[m]
      modifies pre`nleft
      ensures Valid() && Pids() == old(Pids())
      ensures Lefts() == old(Lefts())[m := old(Lefts())[m] - 1]
    {
      ghost var q := Lefts();
      pre.nleft := pre.nleft - 1;
      assert Lefts() == q[m := q[m] - 1];
      StillLinked();
    }

    /** Any number of deaths. */
    method HandlerDeadProcessors(ds: seq<Death>)
      requires Valid() && forall d | d in ds :: d.born > 0
      modifies `nProc, `first, `procs, (set p | p in procs)`next
      ensures Valid() && TheState() == AfterDeaths(old(TheState()), ds)
      ensures forall p | p in procs :: p in old(procs) || fresh(p)
      decreases |ds|
    {
      if ds != [] {
        HandlerDeadProcessor(ds[0].dead, ds[0].born);
        HandlerDeadProcessors(ds[1..]);
      }
    }

    /** notice_child: charges one connection to a worker and returns its id. */
    method NoticeChild() returns (pid: int)
      requires Valid() && procs != []
      modifies (set p | p in procs)`nleft
      ensures Valid() && Lefts() == Dispatch.Next(old(Lefts()))
      ensures Pids() == old(Pids()) && pid == Pids()[Dispatch.LastMax(old(Lefts()))]
      ensures forall m: nat | Dispatch.IsLastMax(old(Lefts()), m) ::
                && pid == procs[m].pid && procs[m].nleft == old(procs[m].nleft) - 1
                && forall j | 0 <= j < |procs| && j != m :: procs[j].nleft == old(procs[j].nleft)
    {
      ghost var q := Lefts();
      var max := first.nleft;
      var item := first;
      var pre := first;
      pid := 0;
      ghost var i, m := 0, 0;
      while item != null
        invariant Valid() && Lefts() == q
        invariant i <= |procs| && item == ProcAt(i) && m < |procs| && max == q[m] && pre == procs[m]
        invariant i > 0 ==> m < i && pid == pre.pid && Dispatch.Best(q, i) == m
        invariant i == 0 ==> m == 0
        decreases |procs| - i
      {
        assert LinkedAt(i) && q[i] == item.nleft;
        if item.nleft >= max {
          max := item.nleft;
          pid := item.pid;
          pre := item;
          m := i;
        }
        i := i + 1;
        item := item.next;
      }
      assert q[m] == pre.nleft && forall j | 0 <= j < |procs| :: q[j] == procs[j].nleft;
      Charge(pre, m);
      assert forall j | 0 <= j < |procs| :: Lefts()[j] == procs[j].nleft;
      LastMaxIs(q, m);
    }

    lemma LastMaxIs(q: seq<int>, m: nat)
      requires q != [] && m == Dispatch.LastMax(q)
      ensures forall i: nat :: Dispatch.IsLastMax(q, i) <==> i == m
    {
      forall i: nat ensures Dispatch.IsLastMax(q, i) <==> i == m {
        Dispatch.LastMaxCorrect(q, i);
      }
    }

    /** Any number of connections in a row, and the ids of the chosen workers. */
    method NoticeChildren(k: nat) returns (pids: seq<int>)
      requires Valid() && procs != []
      modifies (set p | p in procs)`nleft
      ensures Valid() && Lefts() == Dispatch.After(old(Lefts()), k)
      ensures |pids| == k
      ensures Pids() == old(Pids())
      ensures forall j | 0 <= j < k :: pids[j] == Pids()[Dispatch.Chosen(old(Lefts()), j)]
    {
      pids := [];
      if k > 0 {
        pids := NoticeChildren(k - 1);
        var pid := NoticeChild();
        AnswerMore(Pids(), old(Lefts()), pids, pid);
        pids := pids + [pid];
      }
    }

    /** init_manager_proc in the parent: `forks` are the results of its ten forks. */
    method InitManagerProc(forks: seq<int>)
      requires Valid() && procs == [] && nProc == 0
      requires |forks| == NPROC_MAX_NUM && forall p | p in forks :: p > 0
      modifies `nProc, `first, `procs
      ensures Valid() && TheState() == State(NPROC_MAX_NUM, forks)
      ensures Lefts() == seq(NPROC_MAX_NUM, i => MAX_FD_NUM)
      ensures forall p | p in procs :: fresh(p) && Unused(p)
    {
      CreateProcPool();
      assert Pids() == Partly(forks, 0);
      for i := 0 to NPROC_MAX_NUM
        invariant Valid() && TheState() == State(i, Partly(forks, i))
        invariant forall p | p in procs :: fresh(p) && Unused(p)
      {
        FillsNext(forks, i, i);
        InsertPoolObj(forks[i]);
      }
      assert Partly(forks, NPROC_MAX_NUM) == forks;
      LeftsOfUnused();
    }

    lemma LeftsOfUnused()
      requires forall p | p in procs :: Unused(p)
      ensures Lefts() == seq(|procs|, i => MAX_FD_NUM)
    {
      forall i | 0 <= i < |procs| ensures Lefts()[i] == MAX_FD_NUM {
        assert procs[i] in procs;
      }
    }

    lemma NoneOverdrawn(k: nat)
      requires Lefts() == Dispatch.Level(10, 200, k / 10, k % 10)
      ensures (forall p | p in procs :: p.nleft >= 0) <==> k <= 2000
    {
      assert |procs| == |Lefts()| == 10;
      assert forall i | 0 <= i < 10 :: procs[i].nleft == Lefts()[i];
      assert procs[9] in procs;
    }

    /** From the ten forks to `k` connections: they go to the last process first and
        to the first one last, round and round, and the workers stay level. */
    method ServeInTurn(forks: seq<int>, k: nat) returns (pids: seq<int>)
      requires Valid() && procs == [] && nProc == 0
      requires |forks| == NPROC_MAX_NUM && forall p | p in forks :: p > 0
      modifies `nProc, `first, `procs
      ensures Valid() && Pids() == forks && |pids| == k
      ensures forall j | 0 <= j < k :: pids[j] == forks[NPROC_MAX_NUM - 1 - j % NPROC_MAX_NUM]
      ensures Lefts() == Dispatch.Level(NPROC_MAX_NUM, MAX_FD_NUM, k / NPROC_MAX_NUM, k % NPROC_MAX_NUM)
      ensures |procs| == 10
      ensures (forall p | p in procs :: p.nleft >= 0) <==> k <= 2000
    {
      InitManagerProc(forks);
      pids := NoticeChildren(k);
      forall j: nat ensures Dispatch.Chosen(seq(NPROC_MAX_NUM, i => MAX_FD_NUM), j)
                         == NPROC_MAX_NUM - 1 - j % NPROC_MAX_NUM {
        Dispatch.PicksInTurn(NPROC_MAX_NUM, MAX_FD_NUM, j);
      }
      Dispatch.PicksInTurn(NPROC_MAX_NUM, MAX_FD_NUM, k);
      NoneOverdrawn(k);
    }

    /** Whatever processes die after the start, there is a worker to choose. */
    method ServeAfterDeaths(forks: seq<int>, ds: seq<Death>) returns (pid: int)
      requires Valid() && procs == [] && nProc == 0
      requires |forks| == NPROC_MAX_NUM && (forall p | p in forks :: p > 0) && forall d | d in ds :: d.born > 0
      modifies `nProc, `first, `procs
      ensures Valid() && TheState() == AfterDeaths(State(NPROC_MAX_NUM, forks), ds)
      ensures pid in Pids()
    {
      InitManagerProc(forks);
      HandlerDeadProcessors(ds);
      NeverEmptied(State(NPROC_MAX_NUM, forks), ds);
      pid := NoticeChild();
    }
  }
}
