/** The queues over whole runs from the empty scheduler: while no slot is recycled every environment ever created has
    exactly one entry and no ring write replaces another; with one recycled slot that fails. */
module MlfqRuns {
  import opened Mlfq
  import opened MlfqModel
  import opened MlfqProofs

  datatype Event =
    | Yielded(cur: int)              // sched_yield with curenv in slot `cur`, NOBODY for NULL
    | Created(id: int, parent: int)  // env_alloc by the environment in slot `parent`, NOBODY at boot
    | Lowered(id: int, to: int)      // sys_env_asignar_prioridad on a live environment
    | Changed(e: nat, status: Status)// any other change of an env_status

  /** The scheduler, and the ids env_alloc has given out so far. */
  datatype Run = Run(s: Sched, made: multiset<int>)

  predicate Used(made: multiset<int>, e: int) { exists id :: id in made && Envx(id) == e }

  /** No slot is recycled: env_alloc takes one that has never been used. */
  predicate Possible(made: multiset<int>, ev: Event) {
    match ev
    case Yielded(cur) => cur < NENV
    case Created(id, parent) => !Used(made, Envx(id)) && (parent == NOBODY || Used(made, parent))
    case Lowered(id, _) => id in made
    case Changed(e, _) => e < NENV
  }

  /** Every id given out has its one entry, in the queue its cola_actual names. */
  ghost predicate Inv(r: Run) { Shape(r.s) && Placed(r.s) && Ids(r.s) == r.made }

  /** The queue of a new environment: its parent's. */
  function StartLevel(s: Sched, parent: int): int
    requires |s.level| == NENV && parent < NENV
  {
    if parent < 0 then 0 else s.level[parent]
  }

  lemma LevelOfUsed(r: Run, e: int)
    requires Inv(r) && Used(r.made, e)
    ensures 0 <= e < NENV && 0 <= r.s.level[e] < LEVELS
  {
    var id :| id in r.made && Envx(id) == e;
    assert exists n :: 0 <= n < LEVELS && id in multiset(r.s.queues[n]);
    var n :| 0 <= n < LEVELS && id in multiset(r.s.queues[n]);
    assert id in r.s.queues[n];
  }

  lemma LevelsInRange(r: Run, ev: Event)
    requires Inv(r) && Possible(r.made, ev)
    ensures ev.Created? ==> ev.parent < NENV && 0 <= StartLevel(r.s, ev.parent) < LEVELS
    ensures ev.Lowered? ==> 0 <= r.s.level[Envx(ev.id)] < LEVELS
  {
    if ev.Created? && ev.parent != NOBODY { LevelOfUsed(r, ev.parent); }
    if ev.Lowered? { LevelOfUsed(r, Envx(ev.id)); }
  }

  function Next(r: Run, ev: Event): Run
    requires Inv(r) && Possible(r.made, ev)
  {
    LevelsInRange(r, ev);
    match ev
    case Yielded(cur) => r.(s := Yield(r.s, cur).0)
    case Created(id, parent) =>
      var s := Append(r.s, id, StartLevel(r.s, parent));
      Run(s.(status := s.status[Envx(id) := Runnable]), r.made + multiset{id})
    case Lowered(id, to) => r.(s := SetPriority(r.s, id, to).0)
    case Changed(e, status) => r.(s := r.s.(status := r.s.status[e := status]))
  }

  lemma StepKeeps(r: Run, ev: Event)
    requires Inv(r) && Possible(r.made, ev)
    ensures Inv(Next(r, ev))
  {
    hide Ids, Placed, Queued, Yield, SetPriority;
    LevelsInRange(r, ev);
    match ev
    case Yielded(cur) =>
      YieldConserves(r.s, cur);
      YieldPlaced(r.s, cur);
    case Created(id, parent) =>
      var n := StartLevel(r.s, parent);
      UnusedNotQueued(r, Envx(id));
      AllocPlaced(r.s, id, n);
      StatusIsFree(Append(r.s, id, n), Next(r, ev).s);
    case Lowered(id, to) =>
      SetPriorityPlaced(r.s, id, to);
    case Changed(_, _) =>
      StatusIsFree(r.s, Next(r, ev).s);
  }

  /** Statuses say nothing about the queues. */
  lemma StatusIsFree(s: Sched, s': Sched)
    requires Shape(s) && Placed(s) && s' == s.(status := s'.status) && |s'.status| == NENV
    ensures Placed(s') && Ids(s') == Ids(s)
  {
  }

  lemma UnusedNotQueued(r: Run, e: nat)
    requires Inv(r) && !Used(r.made, e)
    ensures !Queued(r.s, e)
  {
    forall n, i | 0 <= n < LEVELS && 0 <= i < |r.s.queues[n]| ensures Envx(r.s.queues[n][i]) != e {
      EntryInIds(r.s, n, i);
      assert Envx(r.s.queues[n][i]) == e ==> Used(r.made, e);
    }
  }

  // ---------------------------------------------------------------- whole runs

  ghost predicate Runs(r: Run, events: seq<Event>)
    requires Inv(r)
    decreases |events|
  {
    events == [] ||
    (Possible(r.made, events[0]) && (StepKeeps(r, events[0]); Runs(Next(r, events[0]), events[1..])))
  }

  function After(r: Run, events: seq<Event>): (r': Run)
    requires Inv(r) && Runs(r, events)
    ensures Inv(r')
    decreases |events|
  {
    if events == [] then r else StepKeeps(r, events[0]); After(Next(r, events[0]), events[1..])
  }

  /** The ids of the calls of env_alloc in a run. */
  function Creations(events: seq<Event>): multiset<int> {
    if events == [] then multiset{}
    else (if events[0].Created? then multiset{events[0].id} else multiset{}) + Creations(events[1..])
  }

  function Boot(): (r: Run)
    ensures Inv(r)
  {
    Run(Empty(), multiset{})
  }

  lemma {:induction false} MadeIs(r: Run, events: seq<Event>)
    requires Inv(r) && Runs(r, events)
    ensures After(r, events).made == r.made + Creations(events)
    decreases |events|
  {
    hide Inv, Possible;
    if events != [] {
      StepKeeps(r, events[0]);
      MadeIs(Next(r, events[0]), events[1..]);
    }
  }

  /** Conservation: after any run from the empty scheduler the queues hold exactly the ids created in it, each once
      and in the queue its cola_actual names, and so no more than NENV of them. */
  lemma RunConserves(events: seq<Event>)
    requires Runs(Boot(), events)
    ensures var s := After(Boot(), events).s;
            Ids(s) == Creations(events) && Placed(s) && Size(s) <= NENV
  {
    MadeIs(Boot(), events);
    OnceFits(After(Boot(), events).s);
  }

  // ---------------------------------------------------------------- room in the rings

  /** Ids of different slots are at most as many as the slots. */
  lemma {:induction false} AtMost(ids: multiset<int>, n: nat)
    requires Once(ids) && forall id :: id in ids ==> Envx(id) < n
    ensures |ids| <= n
    decreases n
  {
    if n == 0 {
      assert forall id :: ids[id] == 0;
      assert ids == multiset{};
    } else if id :| id in ids && Envx(id) == n - 1 {
      AtMost(ids - multiset{id}, n - 1);
    } else {
      AtMost(ids, n - 1);
    }
  }

  lemma OnceFits(s: Sched)
    requires Shape(s) && Placed(s)
    ensures Size(s) <= NENV
  {
    AtMost(Ids(s), NENV);
    SizeIsIds(s);
  }

  /** Every ring the event writes has room, so that the write replaces no entry. These are what the methods of
      `Mlfq.Scheduler` ask for. */
  predicate Room(s: Sched, ev: Event)
    requires Shape(s)
  {
    match ev
    case Yielded(_) => YieldFits(s)
    case Created(_, parent) =>
      parent < NENV && 0 <= StartLevel(s, parent) < LEVELS ==> |s.queues[StartLevel(s, parent)]| < NENV
    case Lowered(id, to) => PriorityFits(s, id, to)
    case Changed(_, _) => true
  }

  lemma StepHasRoom(r: Run, ev: Event)
    requires Inv(r) && Possible(r.made, ev)
    ensures Room(r.s, ev)
  {
    OnceFits(r.s);
    LevelsInRange(r, ev);
    if ev.Created? {
      StepKeeps(r, ev);
      OnceFits(Next(r, ev).s);
      CreatedSize(r, ev);
    } else if ev.Lowered? {
      assert exists n :: 0 <= n < LEVELS && ev.id in multiset(r.s.queues[n]);
      var n :| 0 <= n < LEVELS && ev.id in multiset(r.s.queues[n]);
      assert ev.id in r.s.queues[n];
      assert r.s.level[Envx(ev.id)] == n && |r.s.queues[n]| > 0;
    }
  }

  lemma CreatedSize(r: Run, ev: Event)
    requires Inv(r) && Possible(r.made, ev) && ev.Created?
    ensures Size(Next(r, ev).s) == Size(r.s) + 1
  {
    LevelsInRange(r, ev);
  }

  /** No ring write in any run from the empty scheduler replaces an entry. */
  lemma RoomInEveryRun(events: seq<Event>, ev: Event)
    requires Runs(Boot(), events) && Possible(After(Boot(), events).made, ev)
    ensures Room(After(Boot(), events).s, ev)
  {
    StepHasRoom(After(Boot(), events), ev);
  }

  // ---------------------------------------------------------------- a recycled slot

  const PARENT := 4096

  /** The id of slot 1 when it is allocated for the (k + 1)-th time. */
  function Child(k: nat): int { 4096 * (k + 1) + 1 }

  /** The first environment has been dispatched, and has created and destroyed `k` children. env_free leaves their
      ids in the queue. */
  function Recycled(k: nat): (s: Sched)
    ensures Shape(s) && s.level[0] == 1
  {
    if k == 0 then
      var s := Append(Empty(), PARENT, 0);
      DispatchesParent();
      Yield(s.(status := s.status[0 := Runnable]), NOBODY).0
    else
      var s := Append(Recycled(k - 1), Child(k - 1), Recycled(k - 1).level[0]);
      s.(status := s.status[1 := Free])
  }

  lemma DispatchesParent()
    ensures var s := Append(Empty(), PARENT, 0);
            var s' := Yield(s.(status := s.status[0 := Runnable]), NOBODY).0;
            s'.queues == [[], [PARENT], [], []] && s'.level[0] == 1 && s'.status[0] == Running
  {
    var s := Append(Empty(), PARENT, 0).(status := Empty().status[0 := Runnable]);
    assert s.queues[0] == [PARENT];
    assert FirstRunnable(s.queues[0], s.status) == 0 && BestQueue(s, 0) == 0;
    assert RemoveAt([PARENT], 0) == [];
  }

  /** Every child adds one entry behind the parent's. */
  lemma {:induction false} RecycledGrows(k: nat)
    ensures var q := Recycled(k).queues[1];
            && |q| == k + 1 && q[0] == PARENT && Recycled(k).status[0] == Running
            && forall i :: 0 < i <= k ==> q[i] == Child(i - 1)
  {
    hide Yield;
    DispatchesParent();
    if k > 0 { RecycledGrows(k - 1); }
  }

  /** At the NENV-th child the ring is full, and the write replaces the entry of the running parent: sched_yield finds
      it in no queue any more. */
  lemma ParentOverwritten(ring: seq<int>, lo: nat)
    requires |ring| == NENV && Window(ring, lo, lo + NENV) == Recycled(NENV - 1).queues[1]
    ensures PARENT in Recycled(NENV - 1).queues[1] && !Room(Recycled(NENV - 1), Created(Child(NENV - 1), 0))
    ensures PARENT !in Window(ring[(lo + NENV) % NENV := Child(NENV - 1)], lo, lo + NENV + 1)
  {
    RecycledGrows(NENV - 1);
    WindowOverwrite(ring, lo, Child(NENV - 1));
  }
}
