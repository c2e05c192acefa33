/** What becomes of the promise when the kernel's callers do what `Smp.Assumed` leaves out: exactly when each such
    call is safe, and runs from boot that show it is not. */
module SmpAssumptions {
  import opened MlfqModel
  import opened Smp

  // ---------------------------------------------------------------- runs

  ghost predicate Reaches(s: State, t: State) {
    exists events :: Runs(s, events) && After(s, events) == t
  }

  lemma {:induction false} RunsMore(s: State, events: seq<Event>, e: Event)
    requires Runs(s, events)
    requires Possible(After(s, events), e.cpu, e.action) && Assumed(After(s, events), e.cpu, e.action)
    ensures Runs(s, events + [e]) && After(s, events + [e]) == Next(After(s, events), e.cpu, e.action)
    decreases |events|
  {
    hide Next, Possible, Assumed;
    if events == [] {
      assert ([] + [e])[1..] == [];
    } else {
      RunsMore(Next(s, events[0].cpu, events[0].action), events[1..], e);
      assert (events + [e])[1..] == events[1..] + [e];
    }
  }

  lemma Stays(s: State)
    ensures Reaches(s, s)
  {
    assert Runs(s, []) && After(s, []) == s;
  }

  /** One step more. */
  lemma Then(s: State, t: State, i: nat, a: Action)
    requires Reaches(s, t) && Possible(t, i, a) && Assumed(t, i, a)
    ensures Reaches(s, Next(t, i, a))
  {
    hide Next, Possible, Assumed, Runs, After;
    var events :| Runs(s, events) && After(s, events) == t;
    RunsMore(s, events, Event(i, a));
  }

  /** A processor in user mode enters the kernel while the lock is free. */
  lemma Enters(s: State, t: State, i: nat)
    requires Reaches(s, t) && i < |t.cpus| && |t.recving| == |t.env| && !t.locked && t.owner != i
    requires t.cpus[i].phase == User && t.cpus[i].status == Started && HasCur(t, i) && t.env[t.cpus[i].cur] != Dying
    ensures Reaches(s, t.(cpus := t.cpus[i := t.cpus[i].(phase := Kernel)], locked := true, owner := i))
  {
    hide Reaches;
    Then(s, t, i, Interrupt);
    var t1 := Next(t, i, Interrupt);
    Then(s, t1, i, Step);
    var t2 := Next(t1, i, Step);
    Then(s, t2, i, Step);
    var t3 := Next(t2, i, Step);
    Then(s, t3, i, Step);
    var t4 := Next(t3, i, Step);
    Then(s, t4, i, Step);
    var t5 := Next(t4, i, Step);
    Then(s, t5, i, Step);
    var t6 := Next(t5, i, Step);
    Then(s, t6, i, Step);
    assert Next(t6, i, Step) == t.(cpus := t.cpus[i := t.cpus[i].(phase := Kernel)], locked := true, owner := i);
  }

  /** ... and leaves it for user mode. */
  lemma Leaves(s: State, t: State, i: nat)
    requires Reaches(s, t) && i < |t.cpus| && |t.recving| == |t.env| && t.locked && t.owner == i
    requires t.cpus[i].phase == Unlock(TestHolding, true)
    ensures Reaches(s, t.(cpus := t.cpus[i := t.cpus[i].(phase := User)], locked := false, owner := NOBODY))
  {
    hide Reaches;
    Then(s, t, i, Step);
    var t1 := Next(t, i, Step);
    Then(s, t1, i, Step);
    var t2 := Next(t1, i, Step);
    Then(s, t2, i, Step);
    assert Next(t2, i, Step) == t.(cpus := t.cpus[i := t.cpus[i].(phase := User)], locked := false, owner := NOBODY);
  }

  /** From here on no run breaks the promise, as long as the callers keep to the assumptions. */
  ghost predicate SafeForever(t: State) {
    forall events :: Runs(t, events) ==> Promise(After(t, events))
  }

  lemma InvIsSafe(t: State)
    requires Inv(t)
    ensures SafeForever(t)
  {
    hide Inv, Promise;
    forall events | Runs(t, events) ensures Promise(After(t, events)) {
      RunKeepsInv(t, events);
      InvKeepsPromise(After(t, events));
    }
  }

  lemma SafeHere(t: State)
    ensures SafeForever(t) ==> Promise(t)
  {
    assert Runs(t, []) && After(t, []) == t;
  }

  lemma SafeThere(s: State, t: State)
    requires Reaches(s, t)
    ensures SafeForever(s) ==> Promise(t)
  {
  }

  // ---------------------------------------------------------------- destroying a DYING environment

  /** env_destroy keeps the promise exactly when the environment is not DYING: otherwise it is freed under the
      processor that runs it. */
  lemma DestroySafeIff(s: State, i: nat, e: nat)
    requires Inv(s) && Possible(s, i, Destroy(e))
    ensures SafeForever(Next(s, i, Destroy(e))) <==> s.env[e] != Dying
    ensures Promise(Next(s, i, Destroy(e))) <==> s.env[e] != Dying
  {
    var t := Next(s, i, Destroy(e));
    if s.env[e] == Dying {
      assert CpuOk(s, i);
      TakenAway(s, t, i, e);
      SafeHere(t);
    } else {
      DestroyKeeps(s, i, e);
      InvIsSafe(t);
      InvKeepsPromise(t);
    }
  }

  /** An environment live on another processor gets a state that is not live. */
  lemma TakenAway(s: State, t: State, i: nat, e: nat)
    requires Inv(s) && i < |s.cpus| && s.cpus[i].phase == Kernel && e < |s.env| && Live(s.env[e]) && s.cpus[i].cur != e
    requires t.cpus == s.cpus && |t.env| == |s.env| && !Live(t.env[e])
    ensures !Promise(t)
  {
    Current(s, e, i);
    var j :| 0 <= j < |s.cpus| && j != i && s.cpus[j].cur == e;
    OnlyHolder(s, i);
    assert CpuOk(s, j);
    assert RunsUser(t.cpus[j].phase);
  }

  // ---------------------------------------------------------------- waking an environment that still receives

  /** Another processor runs a RUNNING environment in user mode, other than `e`. */
  ghost predicate Sender(s: State, i: nat, j: nat, e: nat)
    requires i < |s.cpus|
  {
    && j < |s.cpus| && j != i && s.cpus[j].phase == User && HasCur(s, j) && s.cpus[j].cur != e
    && s.env[s.cpus[j].cur] == Running
  }

  /** Environment `e` is current on two processors. */
  ghost predicate Twice(t: State, i: nat, j: nat, e: nat) {
    i < |t.cpus| && j < |t.cpus| && i != j && t.cpus[i].cur == e == t.cpus[j].cur
  }

  /** Some run leads there. */
  ghost predicate ComesToRunTwice(s: State, i: nat, j: nat, e: nat) {
    exists t :: Reaches(s, t) && Twice(t, i, j, e)
  }

  lemma TwiceBreaks(s: State, i: nat, j: nat, e: nat)
    requires ComesToRunTwice(s, i, j, e)
    ensures !SafeForever(s)
  {
    var t :| Reaches(s, t) && Twice(t, i, j, e);
    SafeThere(s, t);
    assert !Promise(t) by { assert t.cpus[if i < j then i else j].cur == t.cpus[if i < j then j else i].cur; }
  }

  /** An environment that runs on processor `i` and is open to sends: somebody else sends to it, it becomes
      RUNNABLE, and the sender's processor picks it up as well. */
  lemma RunsTwice(s: State, t: State, i: nat, j: nat, e: nat)
    requires Reaches(s, t) && |t.recving| == |t.env| && e < |t.env| && t.env[e] == Running && t.recving[e]
    requires i < |t.cpus| && t.cpus[i].phase == Unlock(TestHolding, true) && t.cpus[i].cur == e
    requires t.locked && t.owner == i && Sender(t, i, j, e) && t.cpus[j].status == Started
    ensures ComesToRunTwice(s, i, j, e)
  {
    hide Reaches;
    Leaves(s, t, i);
    var t1 := t.(cpus := t.cpus[i := t.cpus[i].(phase := User)], locked := false, owner := NOBODY);
    Enters(s, t1, j);
    var t2 := t1.(cpus := t1.cpus[j := t1.cpus[j].(phase := Kernel)], locked := true, owner := j);
    Then(s, t2, j, Send(e));
    var t3 := Next(t2, j, Send(e));
    Then(s, t3, j, Schedule(e));
    var t4 := Next(t3, j, Schedule(e));
    assert Twice(t4, i, j, e);
  }

  lemma SenderStarted(s: State, i: nat, j: nat, e: nat)
    requires Inv(s) && i < |s.cpus| && Sender(s, i, j, e)
    ensures s.cpus[j].status == Started
  {
    assert CpuOk(s, j);
  }

  lemma KernelHolds(s: State, i: nat)
    requires Inv(s) && i < |s.cpus| && s.cpus[i].phase == Kernel
    ensures s.locked && s.owner == i
  {
  }

  /** sys_ipc_recv keeps the invariant exactly when its dstva is valid or its caller is not running any more, and
      with a sender about, exactly then it keeps the promise: otherwise the caller can come to run twice. */
  lemma ReceiveSafeIff(s: State, i: nat, valid: bool)
    requires Inv(s) && Possible(s, i, Receive(valid))
    ensures var c, t := s.cpus[i].cur, Next(s, i, Receive(valid));
            && (Inv(t) <==> valid || s.env[c] == NotRunnable || s.env[c] == Free)
            && ((exists j :: Sender(s, i, j, c)) ==>
                (SafeForever(t) <==> valid || s.env[c] == NotRunnable || s.env[c] == Free))
  {
    var c, t := s.cpus[i].cur, Next(s, i, Receive(valid));
    if valid || s.env[c] == NotRunnable || s.env[c] == Free {
      NotElsewhere(s, i, c);
      ParkKeeps(s, t, i, c);
      InvIsSafe(t);
    } else {
      assert t.recving[c];
      if j :| Sender(s, i, j, c) {
        RefusedRunsTwice(s, i, j);
        TwiceBreaks(t, i, j, c);
      }
    }
  }

  /** The caller of a refused sys_ipc_recv goes on running, and open to sends. */
  lemma RefusedRunsTwice(s: State, i: nat, j: nat)
    requires Inv(s) && Possible(s, i, Receive(false)) && Sender(s, i, j, s.cpus[i].cur)
    requires s.env[s.cpus[i].cur] != NotRunnable && s.env[s.cpus[i].cur] != Free
    ensures ComesToRunTwice(Next(s, i, Receive(false)), i, j, s.cpus[i].cur)
  {
    var c, t := s.cpus[i].cur, Next(s, i, Receive(false));
    assert CpuOk(s, i);
    KernelHolds(s, i);
    SenderStarted(s, i, j, c);
    hide Inv, CpuOk, Reaches;
    Stays(t);
    if s.env[c] == Running {
      Then(t, t, i, Return);
      RunsTwice(t, Next(t, i, Return), i, j, c);
    } else {
      Then(t, t, i, Schedule(c));
      RunsTwice(t, Next(t, i, Schedule(c)), i, j, c);
    }
  }

  /** set_status keeps the invariant exactly when its target is not live on another processor and is not a receiver
      made RUNNABLE. A target live elsewhere breaks the promise at once, and a receiver, with a sender about, can
      come to run twice. */
  lemma SetStatusSafeIff(s: State, i: nat, e: nat, st: Status)
    requires Inv(s) && Possible(s, i, SetStatus(e, st))
    ensures var t := Next(s, i, SetStatus(e, st)); var live := Live(s.env[e]) && s.cpus[i].cur != e;
            && (Inv(t) <==> !live && !(s.recving[e] && st == Runnable))
            && (Promise(t) <==> !live)
            && ((exists j :: Sender(s, i, j, e)) ==> (SafeForever(t) <==> !live && !(s.recving[e] && st == Runnable)))
  {
    var t := Next(s, i, SetStatus(e, st));
    if Live(s.env[e]) && s.cpus[i].cur != e {
      TakenAway(s, t, i, e);
      SafeHere(t);
      if Inv(t) { InvKeepsPromise(t); }
    } else if s.recving[e] && st == Runnable {
      assert t.recving[e] && t.env[e] == Runnable;
      StillPromised(s, t, i, e);
      if j :| Sender(s, i, j, e) {
        WokenRunsTwice(s, i, j, e);
        TwiceBreaks(t, i, j, e);
      }
    } else {
      NotElsewhere(s, i, e);
      ParkKeeps(s, t, i, e);
      InvIsSafe(t);
      InvKeepsPromise(t);
    }
  }

  /** A state that differs from a sound one by a receiver made RUNNABLE still keeps the promise for now. */
  lemma StillPromised(s: State, t: State, i: nat, e: nat)
    requires Inv(s) && i < |s.cpus| && s.cpus[i].phase == Kernel && e < |s.env| && s.recving[e]
    requires t == s.(env := s.env[e := Runnable])
    ensures Promise(t)
  {
    NotElsewhere(s, i, e);
    InvKeepsPromise(s);
    KernelHolds(s, i);
    hide Inv;
    forall j | 0 <= j < |t.cpus| && RunsUser(t.cpus[j].phase) ensures HasCur(t, j) && Live(t.env[t.cpus[j].cur]) {
      assert HasCur(s, j);
    }
  }

  lemma WokenRunsTwice(s: State, i: nat, j: nat, e: nat)
    requires Inv(s) && Possible(s, i, SetStatus(e, Runnable)) && Sender(s, i, j, e) && s.recving[e]
    ensures ComesToRunTwice(Next(s, i, SetStatus(e, Runnable)), i, j, e)
  {
    var t := Next(s, i, SetStatus(e, Runnable));
    assert CpuOk(s, i);
    KernelHolds(s, i);
    SenderStarted(s, i, j, e);
    OtherCur(s, i, j);
    hide Inv, CpuOk, Reaches;
    Stays(t);
    Then(t, t, i, Schedule(e));
    RunsTwice(t, Next(t, i, Schedule(e)), i, j, e);
  }

  // ---------------------------------------------------------------- runs from boot

  /** Two processors and two environment slots right after boot. */
  function Boot(): State {
    State([Cpu(Kernel, Started, NOBODY), Cpu(Lock(TestHeld, false, true), Started, NOBODY)], true, 0, [Free, Free],
          [false, false])
  }

  /** Both environments run, one on each processor. */
  function Both(): State {
    State([Cpu(User, Started, 0), Cpu(User, Started, 1)], false, NOBODY, [Running, Running], [false, false])
  }

  /** ... and environment 0 has called the kernel. */
  function Called(): State {
    State([Cpu(Kernel, Started, 0), Cpu(User, Started, 1)], true, 0, [Running, Running], [false, false])
  }

  lemma FirstRuns()
    ensures var t := State([Cpu(User, Started, 0), Cpu(Lock(TestHeld, false, true), Started, NOBODY)], false, NOBODY,
                           [Running, Runnable], [false, false]);
            Reaches(Boot(), t)
  {
    hide Reaches;
    var b := Boot();
    Stays(b);
    Then(b, b, 0, Create(0));
    var t1 := Next(b, 0, Create(0));
    Then(b, t1, 0, Create(1));
    var t2 := Next(t1, 0, Create(1));
    Then(b, t2, 0, Schedule(0));
    var t3 := Next(t2, 0, Schedule(0));
    Leaves(b, t3, 0);
    assert t3.(cpus := t3.cpus[0 := t3.cpus[0].(phase := User)], locked := false, owner := NOBODY) ==
           State([Cpu(User, Started, 0), Cpu(Lock(TestHeld, false, true), Started, NOBODY)], false, NOBODY,
                 [Running, Runnable], [false, false]);
  }

  lemma SecondRuns()
    ensures Reaches(Boot(), Both())
  {
    FirstRuns();
    hide Reaches;
    var b := Boot();
    var t0 := State([Cpu(User, Started, 0), Cpu(Lock(TestHeld, false, true), Started, NOBODY)], false, NOBODY,
                    [Running, Runnable], [false, false]);
    Then(b, t0, 1, Step);
    var t1 := Next(t0, 1, Step);
    Then(b, t1, 1, Step);
    var t2 := Next(t1, 1, Step);
    Then(b, t2, 1, Step);
    var t3 := Next(t2, 1, Step);
    Then(b, t3, 1, Step);
    var t4 := Next(t3, 1, Step);
    Then(b, t4, 1, Schedule(1));
    var t5 := Next(t4, 1, Schedule(1));
    Leaves(b, t5, 1);
    assert Both() == t5.(cpus := t5.cpus[1 := t5.cpus[1].(phase := User)], locked := false, owner := NOBODY);
  }

  lemma CalledIsReached()
    ensures Init(Boot()) && Reaches(Boot(), Called()) && Inv(Called())
  {
    var b := Boot();
    SecondRuns();
    Enters(b, Both(), 0);
    var t := Both().(cpus := Both().cpus[0 := Both().cpus[0].(phase := Kernel)], locked := true, owner := 0);
    assert Called() == t;
    var events :| Runs(b, events) && After(b, events) == Called();
    InitHolds(b);
    RunKeepsInv(b, events);
  }

  /** env_destroy twice: environment 1 is freed while processor 1 runs it in user mode. */
  lemma FreedUnderProcessor()
    ensures var s := Next(Called(), 0, Destroy(1));
            && Reaches(Boot(), s) && Possible(s, 0, Destroy(1))
            && var t := Next(s, 0, Destroy(1));
               t.env[1] == Free && t.cpus[1] == Cpu(User, Started, 1) && !Promise(t)
  {
    CalledIsReached();
    hide Reaches, Inv;
    Then(Boot(), Called(), 0, Destroy(1));
    var t := Next(Next(Called(), 0, Destroy(1)), 0, Destroy(1));
    assert RunsUser(t.cpus[1].phase);
  }

  /** set_status on a running environment: environment 1 comes to run on both processors. */
  lemma StoppedElsewhere()
    ensures Reaches(Boot(), Called()) && Possible(Called(), 0, SetStatus(1, Runnable))
    ensures ComesToRunTwice(Next(Called(), 0, SetStatus(1, Runnable)), 0, 1, 1)
  {
    CalledIsReached();
    hide Reaches, Inv;
    var t := Next(Called(), 0, SetStatus(1, Runnable));
    Stays(t);
    Then(t, t, 0, Schedule(1));
    assert Twice(Next(t, 0, Schedule(1)), 0, 1, 1);
  }

  /** A refused sys_ipc_recv: environment 0 comes to run on both processors. */
  lemma RefusedReceive()
    ensures Reaches(Boot(), Called()) && Possible(Called(), 0, Receive(false))
    ensures ComesToRunTwice(Next(Called(), 0, Receive(false)), 0, 1, 0)
  {
    CalledIsReached();
    hide Reaches, Inv;
    assert Sender(Called(), 0, 1, 0);
    RefusedRunsTwice(Called(), 0, 1);
  }
}
