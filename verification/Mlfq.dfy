/** The scheduler as it runs: four ring buffers with ever-growing indices, updated in place. Every method is
    proved to compute its function of `MlfqModel` on the rings' contents. */
module Mlfq {
  import opened MlfqModel
  import opened MlfqProofs

  /** The entries of a ring from index `lo` to `hi`. */
  function Window(ring: seq<int>, lo: nat, hi: nat): (w: seq<int>)
    requires |ring| == NENV && lo <= hi
    ensures |w| == hi - lo && forall i :: 0 <= i < hi - lo ==> w[i] == ring[(lo + i) % NENV]
  {
    seq(hi - lo, i requires 0 <= i < hi - lo => ring[(lo + i) % NENV])
  }

  lemma SlotsDiffer(lo: nat, i: nat, j: nat)
    requires lo <= i < lo + NENV && lo <= j < lo + NENV && i != j
    ensures i % NENV != j % NENV
  {
  }

  /** A write behind the last entry appends exactly when the ring is not full, or the head already is what is
      written. */
  lemma WindowPush(ring: seq<int>, lo: nat, hi: nat, x: int)
    requires |ring| == NENV && lo <= hi <= lo + NENV
    ensures Window(ring[hi % NENV := x], lo, hi + 1) == Window(ring, lo, hi) + [x] <==>
            hi < lo + NENV || ring[lo % NENV] == x
    ensures hi == lo + NENV ==> Window(ring[hi % NENV := x], lo, hi + 1) == [x] + Window(ring, lo, hi)[1..] + [x]
  {
    if hi < lo + NENV {
      WindowAppend(ring, lo, hi, x);
    } else {
      WindowOverwrite(ring, lo, x);
      var w := Window(ring, lo, hi);
      assert w[0] == ring[lo % NENV];
      assert ([x] + w[1..] + [x])[0] == x && (w + [x])[0] == w[0];
      if w[0] == x { assert [x] + w[1..] == w; }
    }
  }

  lemma WindowAppend(ring: seq<int>, lo: nat, hi: nat, x: int)
    requires |ring| == NENV && lo <= hi < lo + NENV
    ensures Window(ring[hi % NENV := x], lo, hi + 1) == Window(ring, lo, hi) + [x]
  {
    var ring' := ring[hi % NENV := x];
    forall i | 0 <= i < hi - lo ensures Window(ring', lo, hi + 1)[i] == Window(ring, lo, hi)[i] {
      SlotsDiffer(lo, lo + i, hi);
    }
  }

  /** In a full ring the write replaces the head, and the new id has two entries. */
  lemma WindowOverwrite(ring: seq<int>, lo: nat, x: int)
    requires |ring| == NENV
    ensures Window(ring[(lo + NENV) % NENV := x], lo, lo + NENV + 1) ==
            [x] + Window(ring, lo, lo + NENV)[1..] + [x]
  {
    var hi := lo + NENV;
    var w, w' := Window(ring, lo, hi), Window(ring[hi % NENV := x], lo, hi + 1);
    forall i | 0 < i < NENV ensures w'[i] == w[i] {
      SlotsDiffer(lo, lo, lo + i);
    }
    assert w'[0] == x && w'[NENV] == x;
  }

  lemma WindowSwap(ring: seq<int>, lo: nat, hi: nat, i: nat)
    requires |ring| == NENV && lo <= i < hi <= lo + NENV
    ensures Window(ring[lo % NENV := ring[i % NENV]][i % NENV := ring[lo % NENV]], lo + 1, hi) ==
            RemoveAt(Window(ring, lo, hi), i - lo)
  {
    var ring' := ring[lo % NENV := ring[i % NENV]][i % NENV := ring[lo % NENV]];
    var w, w' := RemoveAt(Window(ring, lo, hi), i - lo), Window(ring', lo + 1, hi);
    forall j | 0 <= j < hi - lo - 1 ensures w'[j] == w[j] {
      SlotsDiffer(lo, lo, lo + 1 + j);
      if lo + 1 + j != i { SlotsDiffer(lo, i, lo + 1 + j); }
      assert (lo + 1) + j == lo + (j + 1);
    }
  }

  lemma RunnableAt(q: seq<int>, status: seq<Status>, k: nat)
    requires |status| == NENV && k <= |q| && (k < |q| ==> status[Envx(q[k])] == Runnable)
    requires forall i :: 0 <= i < k ==> status[Envx(q[i])] != Runnable
    ensures FirstRunnable(q, status) == k
  {
  }

  lemma FirstAt(q: seq<int>, status: seq<Status>, k: nat)
    requires |status| == NENV && k < |q| && status[Envx(q[k])] == Runnable && k <= FirstRunnable(q, status)
    ensures FirstRunnable(q, status) == k
  {
  }

  /** struct MLFQ_cola. */
  class Queue {
    const envs: array<int>
    var last: nat   // ultimo: behind the last entry
    var first: nat  // primero

    ghost predicate Valid()
      reads this
    {
      envs.Length == NENV && first <= last <= first + NENV
    }

    ghost function Contents(): seq<int>
      requires Valid()
      reads this, envs
    {
      Window(envs[..], first, last)
    }

    constructor ()
      ensures Valid() && Contents() == [] && fresh(envs)
    {
      envs := new int[NENV];
      last, first := 0, 0;
    }

    /** sched_borrar_env, called with the ring position of entry `i`. */
    method Remove(position: nat, ghost i: nat)
      requires Valid() && first <= i < last && position == i % NENV
      modifies this`first, envs
      ensures Valid() && first == old(first) + 1 && Contents() == RemoveAt(old(Contents()), i - old(first))
    {
      WindowSwap(envs[..], first, last, i);
      if position == first {
        SamePosition(first, i);
        assert envs[..] == envs[..][first % NENV := envs[..][i % NENV]][i % NENV := envs[..][first % NENV]];
        first := first + 1;
        return;
      }
      var head, target := envs[first % NENV], envs[position];
      ghost var ring := envs[..];
      envs[first % NENV] := target;
      envs[position] := head;
      assert envs[..] == ring[first % NENV := ring[i % NENV]][i % NENV := ring[first % NENV]];
      first := first + 1;
    }

    /** The loop of prioridad_MLFQ: the ring index of the first RUNNABLE entry. */
    method FindRunnable(status: array<Status>) returns (i: nat)
      requires Valid() && status.Length == NENV && FirstRunnable(Contents(), status[..]) < |Contents()|
      ensures first <= i < last && i - first == FirstRunnable(Contents(), status[..])
    {
      ghost var entries := Contents();
      i := first;
      while status[Envx(envs[i % NENV])] != Runnable
        invariant first <= i < last && i - first <= FirstRunnable(entries, status[..])
        decreases last - i
      {
        assert entries[i - first] == envs[i % NENV];
        i := i + 1;
      }
      assert entries[i - first] == envs[i % NENV];
      FirstAt(entries, status[..], i - first);
    }

    /** tiene_entornos_ejecutables, as a truth value. */
    method HasRunnable(status: array<Status>) returns (found: bool)
      requires Valid() && status.Length == NENV
      ensures found <==> FirstRunnable(Contents(), status[..]) < |Contents()|
    {
      ghost var entries := Contents();
      var i := first;
      while i < last
        invariant first <= i <= last
        invariant forall j :: 0 <= j < i - first ==> status[Envx(entries[j])] != Runnable
      {
        assert entries[i - first] == envs[i % NENV];
        if status[Envx(envs[i % NENV])] == Runnable {
          RunnableAt(entries, status[..], i - first);
          return true;
        }
        i := i + 1;
      }
      RunnableAt(entries, status[..], i - first);
      found := false;
    }
  }

  /** The position test against `primero` itself, not its remainder, is met by the head only. */
  lemma SamePosition(first: nat, i: nat)
    requires first <= i < first + NENV && i % NENV == first
    ensures i == first
  {
  }

  lemma AppendAllStep(s: Sched, ids: seq<int>, id: int)
    requires Shape(s)
    ensures AppendAll(s, ids + [id]) == Append(AppendAll(s, ids), id, 0)
  {
    assert (ids + [id])[..|ids|] == ids;
  }

  lemma AppendNone(s: Sched)
    requires Shape(s)
    ensures AppendAll(s, []) == s
  {
  }

  lemma PromoteStep(s: Sched, entries: seq<int>, k: nat, id: int)
    requires Shape(s) && k < |entries| && entries[k] == id
    ensures AppendAll(s, entries[..k + 1]) == Append(AppendAll(s, entries[..k]), id, 0)
  {
    assert entries[..k + 1] == entries[..k] + [id];
    AppendAllStep(s, entries[..k], id);
  }

  class Scheduler {
    const a: Queue
    const b: Queue
    const c: Queue
    const d: Queue
    const status: array<Status>  // env_status of every slot
    const level: array<int>      // cola_actual of every slot
    var total: nat               // ejecuciones_totales

    ghost predicate Valid()
      reads this, a, b, c, d
    {
      && a != b && a != c && a != d && b != c && b != d && c != d
      && a.Valid() && b.Valid() && c.Valid() && d.Valid()
      && a.envs != b.envs && a.envs != c.envs && a.envs != d.envs
      && b.envs != c.envs && b.envs != d.envs && c.envs != d.envs
      && level != a.envs && level != b.envs && level != c.envs && level != d.envs
      && status.Length == NENV && level.Length == NENV
    }

    ghost function Snap(): (s: Sched)
      requires Valid()
      reads this, a, b, c, d, a.envs, b.envs, c.envs, d.envs, status, level
      ensures Shape(s)
    {
      Sched([a.Contents(), b.Contents(), c.Contents(), d.Contents()], status[..], level[..], total)
    }

    constructor ()
      ensures Valid() && fresh(a) && fresh(b) && fresh(c) && fresh(d) && fresh(status) && fresh(level)
      ensures Snap() == Empty()
    {
      a := new Queue();
      b := new Queue();
      c := new Queue();
      d := new Queue();
      status := new Status[NENV](_ => Free);
      level := new int[NENV](_ => 0);
      total := 0;
    }

    /** obtener_cola, for a number that is not negative. */
    function GetQueue(n: nat): (q: Queue) {
      if n == 0 then a else if n == 1 then b else if n == 2 then c else d
    }

    /** sched_agregar_env. The code does not test for a full ring: there the write replaces the head, and ultimo
        leaves the ring behind. */
    method AddEnv(id: int, n: nat)
      requires Valid() && n < LEVELS
      modifies GetQueue(n)`last, GetQueue(n).envs, level
      ensures |old(Snap()).queues[n]| < NENV ==> Valid() && Snap() == Append(old(Snap()), id, n)
      ensures |old(Snap()).queues[n]| == NENV ==>
                var q := GetQueue(n);
                && q.last == old(q.last) + 1 && level[..] == old(level[..])[Envx(id) := n]
                && Window(q.envs[..], q.first, q.last) == [id] + old(q.Contents())[1..] + [id]
    {
      var q := GetQueue(n);
      ghost var ring := q.envs[..];
      WindowPush(ring, q.first, q.last, id);
      level[Envx(id)] := n;
      q.envs[q.last % NENV] := id;
      q.last := q.last + 1;
      assert q.envs[..] == ring[old(q.last) % NENV := id];
      assert old(q.last) < q.first + NENV ==> Snap().queues == Append(old(Snap()), id, n).queues;
    }

    /** promover_cola: queue A gets the entries of queue `n` behind its own. Queue `n` itself is emptied later. */
    method PromoteQueue(n: nat)
      requires Valid() && 0 < n < LEVELS && |Snap().queues[0]| + |Snap().queues[n]| <= NENV
      modifies a`last, a.envs, level
      ensures Valid() && Snap() == AppendAll(old(Snap()), old(Snap()).queues[n])
    {
      hide AppendAll, Append;
      ghost var s := Snap();
      ghost var entries := s.queues[n];
      AppendNone(s);
      var q := GetQueue(n);
      var i := q.first;
      while i < q.last
        invariant q.first <= i <= q.last && Valid() && i - q.first <= |entries|
        invariant Snap() == AppendAll(s, entries[..i - q.first])
        invariant q.first == old(q.first) && q.last == old(q.last)
        invariant q.envs[..] == old(q.envs[..])
      {
        var id := q.envs[i % NENV];
        PromoteStep(s, entries, i - q.first, id);
        AddEnv(id, 0);
        i := i + 1;
      }
      assert entries[..i - q.first] == entries;
    }

    /** vaciar_colas: B, C and D lose their entries. */
    method EmptyQueues()
      requires Valid()
      modifies b`first, b`last, c`first, c`last, d`first, d`last
      ensures Valid() && Snap() == old(Snap()).(queues := [old(Snap()).queues[0], [], [], []])
    {
      b.first, b.last := 0, 0;
      c.first, c.last := 0, 0;
      d.first, d.last := 0, 0;
      assert Snap().queues == [old(Snap()).queues[0], [], [], []];
    }

    /** promover_colas and the reset of ejecuciones_totales. */
    method PromoteQueues()
      requires Valid() && Size(Snap()) <= NENV
      modifies this`total, a`last, a.envs, level, b`first, b`last, c`first, c`last, d`first, d`last
      ensures Valid() && Snap() == Promote(old(Snap()))
    {
      hide AppendAll;
      PromoteQueue(1);
      PromoteQueue(2);
      PromoteQueue(3);
      EmptyQueues();
      total := 0;
    }

    /** obtener_cola_mejor_prioridad; LEVELS stands for -1. */
    method BestPriority() returns (n: nat)
      requires Valid()
      ensures n == BestQueue(Snap(), 0)
    {
      n := 0;
      while n < LEVELS
        invariant n <= LEVELS && BestQueue(Snap(), n) == BestQueue(Snap(), 0)
      {
        var found := GetQueue(n).HasRunnable(status);
        if found { return; }
        n := n + 1;
      }
    }

    /** sched_halt's search for an environment that is not done. */
    method AnyLeft() returns (found: bool)
      requires Valid()
      ensures found <==> exists i :: 0 <= i < NENV && (status[i].Runnable? || status[i].Running? || status[i].Dying?)
    {
      var i := 0;
      while i < NENV
        invariant i <= NENV
        invariant forall j :: 0 <= j < i ==> !(status[j].Runnable? || status[j].Running? || status[j].Dying?)
      {
        if status[i].Runnable? || status[i].Running? || status[i].Dying? { return true; }
        i := i + 1;
      }
      found := false;
    }

    /** env_run, the status part. */
    method EnvRun(cur: int, e: nat)
      requires Valid() && cur < NENV && e < NENV
      modifies status
      ensures status[..] == RunStatus(old(status[..]), cur, e)
    {
      if cur >= 0 && status[cur] == Running { status[cur] := Runnable; }
      status[e] := Running;
    }

    /** sched_borrar_env on ring entry `i` of queue `n`. */
    method RemoveEntry(n: nat, i: nat)
      requires Valid() && n < LEVELS && GetQueue(n).first <= i < GetQueue(n).last
      modifies GetQueue(n)`first, GetQueue(n).envs
      ensures Valid() && Snap() == Without(old(Snap()), n, i - old(GetQueue(n).first))
    {
      ghost var s, k := Snap(), i - GetQueue(n).first;
      GetQueue(n).Remove(i % NENV, i);
      assert Snap().queues == Without(s, n, k).queues;
    }

    /** The loop of prioridad_MLFQ over queue `n`, which has a RUNNABLE entry. */
    method DispatchFrom(n: nat, cur: int) returns (id: int)
      requires Valid() && n < LEVELS && cur < NENV && n == BestQueue(Snap(), 0) && ChooseFits(Snap())
      modifies this`total, status, level, a, b, c, d, a.envs, b.envs, c.envs, d.envs
      ensures Valid() && Choose(old(Snap()), cur) == (Snap(), Dispatch(id))
    {
      hide BestQueue, FirstRunnable, RunEntry, Window, Shape;
      var i := GetQueue(n).FindRunnable(status);
      id := GetQueue(n).envs[i % NENV];
      assert Snap().queues[n][i - GetQueue(n).first] == id;
      Requeue(n, cur, id, i);
    }

    /** What prioridad_MLFQ does with the entry it has chosen. */
    method Requeue(n: nat, cur: int, id: int, i: nat)
      requires Valid() && n < LEVELS && cur < NENV && (n < LEVELS - 1 ==> |Snap().queues[n + 1]| < NENV)
      requires GetQueue(n).first <= i < GetQueue(n).last && id == GetQueue(n).envs[i % NENV]
      modifies this`total, status, level, a, b, c, d, a.envs, b.envs, c.envs, d.envs
      ensures Valid() && Snap() == RunEntry(old(Snap()), n, i - old(GetQueue(n).first), cur)
    {
      ghost var s, k := Snap(), i - GetQueue(n).first;
      assert s.queues[n][k] == id;
      hide RemoveAt, RunStatus;
      RemoveEntry(n, i);
      AddEnv(id, NextLevel(n));
      Account(cur, Envx(id));
    }

    /** Count the dispatch and run the environment. */
    method Account(cur: int, e: nat)
      requires Valid() && cur < NENV && e < NENV
      modifies this`total, status
      ensures Valid()
      ensures Snap() == old(Snap()).(total := old(total) + 1, status := RunStatus(old(status[..]), cur, e))
    {
      total := total + 1;
      EnvRun(cur, e);
    }

    /** prioridad_MLFQ. */
    method RunByPriority(cur: int) returns (out: Outcome)
      requires Valid() && cur < NENV && ChooseFits(Snap())
      modifies this`total, status, level, a, b, c, d, a.envs, b.envs, c.envs, d.envs
      ensures Valid() && Choose(old(Snap()), cur) == (Snap(), out)
    {
      var n := BestPriority();
      if n == LEVELS {
        if cur >= 0 && status[cur] == Running {
          total := total + 1;
          ghost var before := status[..];
          EnvRun(cur, cur);
          assert status[..] == before;
          return Rerun;
        }
        var left := AnyLeft();
        return if left then Halt else Stop;
      }
      var id := DispatchFrom(n, cur);
      out := Dispatch(id);
    }

    /** sched_yield. */
    method SchedYield(cur: int) returns (out: Outcome)
      requires Valid() && cur < NENV && YieldFits(Snap())
      modifies this`total, status, level, a, b, c, d, a.envs, b.envs, c.envs, d.envs
      ensures Valid() && Yield(old(Snap()), cur) == (Snap(), out)
    {
      PromoteGathers(Snap());
      PromotedFits(Snap());
      if total >= PROMOTE_EVERY { PromoteQueues(); }
      out := RunByPriority(cur);
    }

    /** sched_eliminar_env. */
    method EliminateEnv(id: int)
      requires Valid() && 0 <= level[Envx(id)] < LEVELS
      modifies a, b, c, d, a.envs, b.envs, c.envs, d.envs
      ensures Valid() && Snap() == Eliminate(old(Snap()), id)
    {
      hide Find, Without;
      ghost var s := Snap();
      var n := level[Envx(id)];
      var q := GetQueue(n);
      ghost var entries := s.queues[n];
      var i := q.first;
      while i < q.last
        invariant q.first <= i <= q.last
        invariant forall j :: 0 <= j < i - q.first ==> entries[j] != id
      {
        assert entries[i - q.first] == q.envs[i % NENV];
        if q.envs[i % NENV] == id {
          FoundAt(entries, id, i - q.first);
          RemoveEntry(n, i);
          return;
        }
        i := i + 1;
      }
      FoundAt(entries, id, i - q.first);
    }

    /** sys_env_asignar_prioridad once the environment is found and permission granted. */
    method AssignPriority(id: int, to: int) returns (r: int)
      requires Valid() && 0 <= level[Envx(id)] < LEVELS
      requires PriorityFits(Snap(), id, to)
      modifies a, b, c, d, a.envs, b.envs, c.envs, d.envs, level
      ensures Valid() && SetPriority(old(Snap()), id, to) == (Snap(), r)
    {
      if to < 0 || to > 3 { return -1; }
      if level[Envx(id)] == to { return to; }
      if level[Envx(id)] > to { return -1; }
      EliminateEnv(id);
      AddEnv(id, to);
      level[Envx(id)] := to;
      r := to;
    }
  }

  /** After a promotion queue B is empty, so the entry that is chosen next finds room. */
  lemma PromotedFits(s: Sched)
    requires Shape(s)
    ensures ChooseFits(Promote(s))
  {
    hide AppendAll;
    PromoteGathers(s);
    var r := Promote(s);
    if BestQueue(r, 0) > 0 { assert FirstRunnable(r.queues[0], r.status) == |r.queues[0]|; }
  }

  lemma FoundAt(q: seq<int>, id: int, k: nat)
    requires k <= |q| && (k < |q| ==> q[k] == id) && forall i :: 0 <= i < k ==> q[i] != id
    ensures Find(q, id) == k
  {
  }
}
