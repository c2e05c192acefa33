/** No starvation: an environment that stays RUNNABLE is dispatched within 50 + NENV calls of sched_yield. */
module MlfqFairness {
  import opened MlfqModel
  import opened MlfqProofs

  /** The first entry of slot `x`, |q| if there is none. */
  function Pos(q: seq<int>, x: nat): (k: nat)
    ensures k <= |q| && (k < |q| ==> Envx(q[k]) == x)
    ensures forall i :: 0 <= i < k ==> Envx(q[i]) != x
  {
    if q == [] || Envx(q[0]) == x then 0 else 1 + Pos(q[1..], x)
  }

  lemma PosIs(q: seq<int>, x: nat, k: nat)
    requires k < |q| && Envx(q[k]) == x && forall i :: 0 <= i < k ==> Envx(q[i]) != x
    ensures Pos(q, x) == k
  {
  }

  /** Calls of sched_yield that can still pass `x` over: once it is in queue A, its distance from primero;
      before, also the dispatches left to the next promotion. */
  function Measure(s: Sched, x: nat): (m: nat)
    requires Shape(s) && s.total <= PROMOTE_EVERY
    ensures m > 0
  {
    var k := Pos(s.queues[0], x);
    if k < |s.queues[0]| then k + 1 else PROMOTE_EVERY - s.total + NENV
  }

  ghost predicate Waiting(s: Sched, x: nat) {
    Shape(s) && x < NENV && s.status[x] == Runnable && Queued(s, x) && Size(s) <= NENV && s.total <= PROMOTE_EVERY
  }

  /** What the rest of the system may do between two calls while `x` waits: any change of other statuses, and
      new entries at the tails. Queue entries are not removed, which only sched_eliminar_env does. */
  ghost predicate Meanwhile(s: Sched, s': Sched, x: nat) {
    && Shape(s) && Waiting(s', x) && s'.total == s.total
    && forall n :: 0 <= n < LEVELS ==> s.queues[n] <= s'.queues[n]
  }

  lemma RemoveAtPos(q: seq<int>, k: nat, x: nat)
    requires k < |q| && k < Pos(q, x)
    ensures Pos(q, x) < |q| ==> Pos(RemoveAt(q, k), x) == Pos(q, x) - 1
    ensures Pos(q, x) == |q| ==> Pos(RemoveAt(q, k), x) == |q| - 1
  {
    var r := RemoveAt(q, k);
    assert forall i :: 0 <= i < |r| ==> r[i] == if i == k - 1 then q[0] else q[i + 1];
    if Pos(q, x) < |q| { PosIs(r, x, Pos(q, x) - 1); }
  }

  /** A dispatch of somebody else moves `x` one step ahead in queue A, or leaves it queued. */
  lemma DispatchAdvances(s: Sched, s': Sched, out: Outcome, n: int, k: int, x: nat)
    requires Shape(s) && Shape(s') && Dispatched(s, s', out, n, k) && x < NENV && s.status[x] == Runnable
    requires Envx(s.queues[n][k]) != x
    ensures Queued(s, x) ==> Queued(s', x)
    ensures Pos(s.queues[0], x) < |s.queues[0]| ==>
              Pos(s'.queues[0], x) == Pos(s.queues[0], x) - 1 && Pos(s'.queues[0], x) < |s'.queues[0]|
  {
    if Queued(s, x) {
      var m, i :| 0 <= m < LEVELS && 0 <= i < |s.queues[m]| && Envx(s.queues[m][i]) == x;
      if m == n {
        assert k < i;
        assert RemoveAt(s.queues[n], k)[i - 1] == s.queues[n][i];
        assert s'.queues[n][i - 1] == s.queues[n][i];
      } else {
        assert s'.queues[m][i] == s.queues[m][i];
      }
    }
    var p := Pos(s.queues[0], x);
    if p < |s.queues[0]| {
      assert s.status[Envx(s.queues[0][p])] == Runnable;
      assert n == 0 && k < p;
      RemoveAtPos(s.queues[0], k, x);
    }
  }

  lemma PromotedPos(s: Sched, x: nat)
    requires Shape(s) && Queued(s, x)
    ensures var a := Promote(s).queues[0];
            Pos(a, x) < |a| == Size(s) && (Pos(s.queues[0], x) < |s.queues[0]| ==> Pos(a, x) == Pos(s.queues[0], x))
  {
    PromoteGathers(s);
    PromoteKeepsEntries(s, x);
    var a := Promote(s).queues[0];
    var p := Pos(s.queues[0], x);
    if p < |s.queues[0]| {
      assert forall i :: 0 <= i < |s.queues[0]| ==> a[i] == s.queues[0][i];
      PosIs(a, x, p);
    }
  }

  /** Every call that does not dispatch `x` brings it closer. */
  lemma YieldAdvances(s: Sched, cur: int, x: nat)
    requires Waiting(s, x) && cur < NENV
    requires forall id :: Yield(s, cur).1 == Dispatch(id) ==> Envx(id) != x
    ensures var s' := Yield(s, cur).0;
            Queued(s', x) && s'.total <= PROMOTE_EVERY && Measure(s', x) < Measure(s, x)
  {
    hide Yield, Promote, Dispatched, HasRunnable, Queued;
    var s0 := if s.total >= PROMOTE_EVERY then Promote(s) else s;
    var (s', out) := Yield(s, cur);
    if s.total >= PROMOTE_EVERY {
      PromoteGathers(s);
      PromoteKeepsEntries(s, x);
      PromotedPos(s, x);
    }
    HasRunnableSlot(s0);
    StrictPriority(s, cur);
    assert HasRunnable(s0);
    var n, k :| Dispatched(s0, s', out, n, k);
    DispatchTotal(s0, s', out, n, k);
    DispatchAdvances(s0, s', out, n, k, x);
    YieldConserves(s, cur);
  }

  lemma DispatchTotal(s: Sched, s': Sched, out: Outcome, n: int, k: int)
    requires Shape(s) && Shape(s') && Dispatched(s, s', out, n, k)
    ensures s'.total == s.total + 1 && 0 <= n < LEVELS && 0 <= k < |s.queues[n]| && out == Dispatch(s.queues[n][k])
  {
  }

  lemma MeanwhileKeeps(s: Sched, s': Sched, x: nat)
    requires Meanwhile(s, s', x) && s.total <= PROMOTE_EVERY
    ensures Measure(s', x) <= Measure(s, x)
  {
    var p := Pos(s.queues[0], x);
    if p < |s.queues[0]| {
      assert forall i :: 0 <= i < |s.queues[0]| ==> s'.queues[0][i] == s.queues[0][i];
      PosIs(s'.queues[0], x, p);
    }
  }

  /** One call of sched_yield: the scheduler before it, and the slot of curenv. */
  datatype Call = Call(before: Sched, cur: int)

  /** Consecutive calls during which `x` waits and is not dispatched. */
  ghost predicate PassedOver(calls: seq<Call>, x: nat) {
    && (forall i :: 0 <= i < |calls| ==>
          && Waiting(calls[i].before, x) && calls[i].cur < NENV
          && forall id :: Yield(calls[i].before, calls[i].cur).1 == Dispatch(id) ==> Envx(id) != x)
    && (forall i :: 0 <= i < |calls| - 1 ==> Meanwhile(Yield(calls[i].before, calls[i].cur).0, calls[i + 1].before, x))
  }

  lemma {:induction false} MeasureFalls(calls: seq<Call>, x: nat, n: nat)
    requires PassedOver(calls, x) && n < |calls|
    ensures Measure(calls[n].before, x) + n <= Measure(calls[0].before, x)
  {
    hide Yield, Waiting, Measure;
    if n > 0 {
      MeasureFalls(calls, x, n - 1);
      StepFalls(calls, x, n - 1);
    }
  }

  lemma StepFalls(calls: seq<Call>, x: nat, i: nat)
    requires PassedOver(calls, x) && i + 1 < |calls|
    ensures Shape(calls[i].before) && Shape(calls[i + 1].before)
    ensures calls[i].before.total <= PROMOTE_EVERY && calls[i + 1].before.total <= PROMOTE_EVERY
    ensures Measure(calls[i + 1].before, x) < Measure(calls[i].before, x)
  {
    hide Yield, Measure;
    YieldAdvances(calls[i].before, calls[i].cur, x);
    MeanwhileKeeps(Yield(calls[i].before, calls[i].cur).0, calls[i + 1].before, x);
  }

  /** No starvation: fewer than 50 + NENV calls in a row can pass a RUNNABLE environment over. */
  lemma NoStarvation(calls: seq<Call>, x: nat)
    requires PassedOver(calls, x)
    ensures |calls| < PROMOTE_EVERY + NENV
  {
    if calls != [] {
      MeasureFalls(calls, x, |calls| - 1);
      var s := calls[|calls| - 1].before;
      YieldAdvances(s, calls[|calls| - 1].cur, x);
    }
  }
}
