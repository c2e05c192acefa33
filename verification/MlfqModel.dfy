/** The multi-level feedback queue scheduler as functions on the contents of its four queues. `Mlfq.dfy` holds
    the rings it runs on. */
module MlfqModel {
  const NENV := 1024
  const LEVELS := 4
  const PROMOTE_EVERY := 50  // MAX_EJECUCIONES_MLFQ
  const NOBODY := -1

  datatype Status = Free | Dying | Runnable | Running | NotRunnable

  /** ENVX: the slot of an environment id. */
  function Envx(id: int): nat { id % NENV }

  /** queues: the ids in each queue from primero to ultimo. level: cola_actual of every slot. total:
      ejecuciones_totales. */
  datatype Sched = Sched(queues: seq<seq<int>>, status: seq<Status>, level: seq<int>, total: nat)

  ghost predicate Shape(s: Sched) {
    |s.queues| == LEVELS && |s.status| == NENV && |s.level| == NENV
  }

  datatype Outcome =
    | Dispatch(id: int)  // env_run of another environment
    | Rerun              // env_run of curenv
    | Halt               // sched_halt
    | Stop               // sched_halt with nothing left to run: the monitor, for good

  /** sched_borrar_env: the head takes the place of entry `k`. */
  function RemoveAt(q: seq<int>, k: nat): (r: seq<int>)
    requires k < |q|
    ensures |r| == |q| - 1
  {
    q[k := q[0]][1..]
  }

  /** The first entry whose slot is RUNNABLE, |q| if there is none. */
  function FirstRunnable(q: seq<int>, status: seq<Status>): (k: nat)
    requires |status| == NENV
    ensures k <= |q| && (k < |q| ==> status[Envx(q[k])] == Runnable)
    ensures forall i :: 0 <= i < k ==> status[Envx(q[i])] != Runnable
  {
    if q == [] || status[Envx(q[0])] == Runnable then 0 else 1 + FirstRunnable(q[1..], status)
  }

  /** obtener_cola_mejor_prioridad, from queue `n` on; LEVELS if no queue has a RUNNABLE entry. */
  function BestQueue(s: Sched, n: nat): (b: nat)
    requires Shape(s) && n <= LEVELS
    ensures n <= b <= LEVELS && (b < LEVELS ==> FirstRunnable(s.queues[b], s.status) < |s.queues[b]|)
    ensures forall i :: n <= i < b ==> FirstRunnable(s.queues[i], s.status) == |s.queues[i]|
    decreases LEVELS - n
  {
    if n == LEVELS || FirstRunnable(s.queues[n], s.status) < |s.queues[n]| then n else BestQueue(s, n + 1)
  }

  /** sched_agregar_env. */
  function Append(s: Sched, id: int, n: nat): (r: Sched)
    requires Shape(s) && n < LEVELS
    ensures Shape(r)
  {
    s.(queues := s.queues[n := s.queues[n] + [id]], level := s.level[Envx(id) := n])
  }

  /** promover_cola after it has appended `ids` to queue A. */
  function AppendAll(s: Sched, ids: seq<int>): (r: Sched)
    requires Shape(s)
    ensures Shape(r) && r.status == s.status && r.total == s.total
    ensures r.queues == s.queues[0 := s.queues[0] + ids]
    ensures forall i :: 0 <= i < NENV ==> r.level[i] == s.level[i] || r.level[i] == 0
    decreases |ids|
  {
    if ids == [] then
      assert s.queues[0] + ids == s.queues[0];
      s
    else
      assert (s.queues[0] + ids[..|ids| - 1]) + [ids[|ids| - 1]] == s.queues[0] + ids;
      Append(AppendAll(s, ids[..|ids| - 1]), ids[|ids| - 1], 0)
  }

  /** promover_colas and the reset of ejecuciones_totales. */
  function Promote(s: Sched): (r: Sched)
    requires Shape(s)
    ensures Shape(r) && r.status == s.status
  {
    var s1 := AppendAll(AppendAll(AppendAll(s, s.queues[1]), s.queues[2]), s.queues[3]);
    s1.(queues := [s1.queues[0], [], [], []], total := 0)
  }

  /** env_run, the status part. */
  function RunStatus(status: seq<Status>, cur: int, e: nat): (r: seq<Status>)
    requires |status| == NENV && e < NENV && cur < NENV
    ensures |r| == NENV
  {
    (if cur >= 0 && status[cur] == Running then status[cur := Runnable] else status)[e := Running]
  }

  function Without(s: Sched, n: nat, k: nat): (r: Sched)
    requires Shape(s) && n < LEVELS && k < |s.queues[n]|
    ensures Shape(r)
  {
    s.(queues := s.queues[n := RemoveAt(s.queues[n], k)])
  }

  function NextLevel(n: nat): nat { if n >= LEVELS - 1 then LEVELS - 1 else n + 1 }

  /** Entry `k` of queue `n` goes to the next lower queue and its environment runs. */
  function RunEntry(s: Sched, n: nat, k: nat, cur: int): (r: Sched)
    requires Shape(s) && n < LEVELS && k < |s.queues[n]| && cur < NENV
    ensures Shape(r)
  {
    var id := s.queues[n][k];
    Append(Without(s, n, k), id, NextLevel(n)).(total := s.total + 1, status := RunStatus(s.status, cur, Envx(id)))
  }

  /** prioridad_MLFQ with `cur` the slot of curenv, NOBODY if it is NULL. */
  function Choose(s: Sched, cur: int): (r: (Sched, Outcome))
    requires Shape(s) && cur < NENV
    ensures Shape(r.0)
  {
    var n := BestQueue(s, 0);
    if n == LEVELS then
      if cur >= 0 && s.status[cur] == Running then (s.(total := s.total + 1), Rerun)
      else if exists i :: 0 <= i < NENV && (s.status[i].Runnable? || s.status[i].Running? || s.status[i].Dying?) then
        (s, Halt)
      else (s, Stop)
    else
      var k := FirstRunnable(s.queues[n], s.status);
      (RunEntry(s, n, k, cur), Dispatch(s.queues[n][k]))
  }

  /** sched_yield. */
  function Yield(s: Sched, cur: int): (r: (Sched, Outcome))
    requires Shape(s) && cur < NENV
    ensures Shape(r.0)
  {
    Choose(if s.total >= PROMOTE_EVERY then Promote(s) else s, cur)
  }

  function Size(s: Sched): nat
    requires |s.queues| == LEVELS
  {
    |s.queues[0]| + |s.queues[1]| + |s.queues[2]| + |s.queues[3]|
  }

  /** mlfq_scheduler as it is initialised, before any environment. */
  function Empty(): (s: Sched)
    ensures Shape(s)
  {
    Sched([[], [], [], []], seq(NENV, _ => Free), seq(NENV, _ => 0), 0)
  }

  /** The ring that gets the entry prioridad_MLFQ chooses has room for it: queue D does, having lost it before. */
  predicate ChooseFits(s: Sched)
    requires Shape(s)
  {
    var n := BestQueue(s, 0);
    n < LEVELS - 1 ==> |s.queues[n + 1]| < NENV
  }

  /** Every ring that sched_yield writes has room. */
  predicate YieldFits(s: Sched)
    requires Shape(s)
  {
    if s.total >= PROMOTE_EVERY then Size(s) <= NENV else ChooseFits(s)
  }

  // ---------------------------------------------------------------- strict priority

  ghost predicate HasRunnable(s: Sched)
    requires Shape(s)
  {
    exists n, i :: 0 <= n < LEVELS && 0 <= i < |s.queues[n]| && s.status[Envx(s.queues[n][i])] == Runnable
  }

  /** Entry `k` of queue `n` is the first RUNNABLE one of the first queue that has any. */
  ghost predicate IsFirstChoice(s: Sched, n: int, k: int)
    requires Shape(s)
  {
    && 0 <= n < LEVELS && 0 <= k < |s.queues[n]| && s.status[Envx(s.queues[n][k])] == Runnable
    && (forall m, i :: 0 <= m < n && 0 <= i < |s.queues[m]| ==> s.status[Envx(s.queues[m][i])] != Runnable)
    && (forall i :: 0 <= i < k ==> s.status[Envx(s.queues[n][i])] != Runnable)
  }

  /** What a promotion leaves: all ids in queue A, in the order A, B, C, D, and a fresh count. */
  lemma PromoteGathers(s: Sched)
    requires Shape(s)
    ensures Promote(s).queues == [s.queues[0] + s.queues[1] + s.queues[2] + s.queues[3], [], [], []]
    ensures Promote(s).total == 0 && Size(Promote(s)) == Size(s)
  {
  }

  /** The first choice of `s` has been dispatched and re-queued at the tail of the next lower queue, D being
      its own; nothing else has moved. */
  ghost predicate Dispatched(s: Sched, s': Sched, out: Outcome, n: int, k: int)
    requires Shape(s) && Shape(s')
  {
    && IsFirstChoice(s, n, k)
    && var id := s.queues[n][k];
    && out == Dispatch(id) && s'.total == s.total + 1
    && s'.level == s.level[Envx(id) := NextLevel(n)] && s'.status[Envx(id)] == Running
    && (forall m :: 0 <= m < LEVELS && m != n && m != NextLevel(n) ==> s'.queues[m] == s.queues[m])
    && (n < 3 ==> s'.queues[n] == RemoveAt(s.queues[n], k) && s'.queues[n + 1] == s.queues[n + 1] + [id])
    && (n == 3 ==> s'.queues[3] == RemoveAt(s.queues[3], k) + [id])
  }

  lemma NothingRunnable(s: Sched)
    requires Shape(s)
    ensures BestQueue(s, 0) == LEVELS <==> !HasRunnable(s)
  {
    if BestQueue(s, 0) == LEVELS {
      forall m, i | 0 <= m < LEVELS && 0 <= i < |s.queues[m]| ensures s.status[Envx(s.queues[m][i])] != Runnable {
        assert FirstRunnable(s.queues[m], s.status) == |s.queues[m]|;
      }
    } else {
      var n := BestQueue(s, 0);
      assert s.status[Envx(s.queues[n][FirstRunnable(s.queues[n], s.status)])] == Runnable;
    }
  }

  lemma BestIsFirst(s: Sched)
    requires Shape(s) && BestQueue(s, 0) < LEVELS
    ensures IsFirstChoice(s, BestQueue(s, 0), FirstRunnable(s.queues[BestQueue(s, 0)], s.status))
  {
    var n := BestQueue(s, 0);
    forall m, i | 0 <= m < n && 0 <= i < |s.queues[m]| ensures s.status[Envx(s.queues[m][i])] != Runnable {
      assert FirstRunnable(s.queues[m], s.status) == |s.queues[m]|;
    }
  }

  lemma EntryRuns(s: Sched, n: nat, k: nat, cur: int)
    requires Shape(s) && cur < NENV && IsFirstChoice(s, n, k)
    ensures Dispatched(s, RunEntry(s, n, k, cur), Dispatch(s.queues[n][k]), n, k)
  {
    hide IsFirstChoice, RemoveAt;
  }

  lemma ChooseDispatches(s: Sched, cur: int)
    requires Shape(s) && cur < NENV && BestQueue(s, 0) < LEVELS
    ensures Dispatched(s, Choose(s, cur).0, Choose(s, cur).1,
                       BestQueue(s, 0), FirstRunnable(s.queues[BestQueue(s, 0)], s.status))
  {
    hide BestQueue, FirstRunnable, IsFirstChoice, RunEntry, Dispatched;
    BestIsFirst(s);
    EntryRuns(s, BestQueue(s, 0), FirstRunnable(s.queues[BestQueue(s, 0)], s.status), cur);
  }

  /** Strict priority: after any promotion due, sched_yield dispatches the first RUNNABLE entry of the first
      queue that has one. Only when no entry is RUNNABLE it re-runs curenv, if that is RUNNING, or halts. */
  lemma StrictPriority(s: Sched, cur: int)
    requires Shape(s) && cur < NENV
    ensures var s0 := if s.total >= PROMOTE_EVERY then Promote(s) else s;
            var (s', out) := Yield(s, cur);
            if HasRunnable(s0) then exists n, k :: Dispatched(s0, s', out, n, k)
            else s'.queues == s0.queues && !out.Dispatch? && (out == Rerun <==> cur >= 0 && s.status[cur] == Running)
  {
    var s0 := if s.total >= PROMOTE_EVERY then Promote(s) else s;
    NothingRunnable(s0);
    if HasRunnable(s0) {
      ChooseDispatches(s0, cur);
      var n := BestQueue(s0, 0);
      var k := FirstRunnable(s0.queues[n], s0.status);
      var r := Yield(s, cur);
      assert Dispatched(s0, r.0, r.1, n, k);
    }
  }

  /** Some entry of some queue stands for slot `e`. */
  ghost predicate Queued(s: Sched, e: nat)
    requires Shape(s)
  {
    exists n, i :: 0 <= n < LEVELS && 0 <= i < |s.queues[n]| && Envx(s.queues[n][i]) == e
  }

  lemma HasRunnableSlot(s: Sched)
    requires Shape(s)
    ensures HasRunnable(s) <==> exists e: nat :: e < NENV && s.status[e] == Runnable && Queued(s, e)
  {
    if HasRunnable(s) {
      var n, i :| 0 <= n < LEVELS && 0 <= i < |s.queues[n]| && s.status[Envx(s.queues[n][i])] == Runnable;
      assert Queued(s, Envx(s.queues[n][i]));
    }
    if e: nat :| e < NENV && s.status[e] == Runnable && Queued(s, e) {
      var n, i :| 0 <= n < LEVELS && 0 <= i < |s.queues[n]| && Envx(s.queues[n][i]) == e;
      assert s.status[Envx(s.queues[n][i])] == Runnable;
    }
  }

  /** Promotion moves entries; it drops none. */
  lemma PromoteKeepsEntries(s: Sched, e: nat)
    requires Shape(s) && Queued(s, e)
    ensures exists i :: 0 <= i < |Promote(s).queues[0]| && Envx(Promote(s).queues[0][i]) == e
    ensures Queued(Promote(s), e)
  {
    var n, i :| 0 <= n < LEVELS && 0 <= i < |s.queues[n]| && Envx(s.queues[n][i]) == e;
    PromoteGathers(s);
    var offset := (if n > 0 then |s.queues[0]| else 0) + (if n > 1 then |s.queues[1]| else 0) +
      (if n > 2 then |s.queues[2]| else 0);
    assert Promote(s).queues[0][offset + i] == s.queues[n][i];
  }

  /** Work conservation: while every environment that is not free has an entry, none that is RUNNABLE is passed
      over for curenv or for halting. */
  lemma WorkConserving(s: Sched, cur: int)
    requires Shape(s) && cur < NENV && forall e: nat :: e < NENV && s.status[e] != Free ==> Queued(s, e)
    ensures Yield(s, cur).1.Dispatch? <==> exists e: nat :: e < NENV && s.status[e] == Runnable
  {
    hide Yield, HasRunnable, Queued, Promote, Dispatched;
    var s0 := if s.total >= PROMOTE_EVERY then Promote(s) else s;
    StrictPriority(s, cur);
    HasRunnableSlot(s0);
    DispatchedOutcome(s, cur);
    if e: nat :| e < NENV && s.status[e] == Runnable {
      if s.total >= PROMOTE_EVERY { PromoteKeepsEntries(s, e); }
      assert Queued(s0, e);
    }
  }

  lemma DispatchedOutcome(s: Sched, cur: int)
    requires Shape(s) && cur < NENV
    ensures forall s0, n, k :: Shape(s0) && Dispatched(s0, Yield(s, cur).0, Yield(s, cur).1, n, k) ==>
              Yield(s, cur).1.Dispatch?
  {
  }
}
