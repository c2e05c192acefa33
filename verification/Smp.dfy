/** N processors under the big kernel lock: traps, the spin lock instruction by instruction, the kernel work
    that changes environment states, and the ways out of the kernel. */
module Smp {
  import opened MlfqModel

  datatype CpuStatus = Unused | Started | Halted

  /** Where a processor is. Interrupts are off outside User and Idle. */
  datatype Phase =
    | User                                        // running curenv
    | Idle                                        // hlt at the end of sched_halt
    | Trapped(fromUser: bool)                     // in trap, cpu_status not exchanged yet
    | Entered(fromUser: bool)                     // past the first test of trap
    | Lock(stage: LockStage, fromUser: bool, waking: bool)  // in spin_lock; `waking`: as a halted processor
    | Reap                                        // in from user mode, curenv not looked at yet
    | Kernel                                      // trap_dispatch and what follows
    | Unlock(step: UnlockStage, toUser: bool)    // in spin_unlock
    | Monitor                                     // sched_halt with nothing left to run
    | Panic

  datatype LockStage = TestHeld | Exchange | RecordOwner
  datatype UnlockStage = TestHolding | ClearOwner | Release

  datatype Cpu = Cpu(phase: Phase, status: CpuStatus, cur: int)

  /** locked, owner: the fields of kernel_lock, owner NOBODY for 0. env, recving: env_status and env_ipc_recving
      of every slot. */
  datatype State = State(cpus: seq<Cpu>, locked: bool, owner: int, env: seq<Status>, recving: seq<bool>)

  datatype Action =
    | Interrupt             // a trap from user mode, or the interrupt that wakes a halted processor
    | Step                  // the next instruction of trap, spin_lock or spin_unlock
    | Create(e: nat)        // env_create at boot
    | Exofork(e: nat)
    | Destroy(e: nat)       // env_destroy
    | SetStatus(e: nat, status: Status)
    | Receive(valid: bool)  // sys_ipc_recv; with an invalid dstva it fails, ready to receive all the same
    | Send(e: nat)          // a successful sys_ipc_try_send
    | Return                // the end of trap with curenv RUNNING
    | Schedule(e: nat)      // sched_yield picks `e`
    | GoOn                  // sched_yield with nothing RUNNABLE

  predicate HasCur(s: State, i: nat)
    requires i < |s.cpus|
  {
    0 <= s.cpus[i].cur < |s.env|
  }

  predicate Holding(s: State, i: nat) { s.locked && s.owner == i }

  function WithPhase(s: State, i: nat, p: Phase): State
    requires i < |s.cpus|
  {
    s.(cpus := s.cpus[i := s.cpus[i].(phase := p)])
  }

  /** One instruction of trap, spin_lock or spin_unlock. */
  function Advance(s: State, i: nat): State
    requires i < |s.cpus|
  {
    var c := s.cpus[i];
    match c.phase
    case Trapped(fromUser) =>
      var woken := c.status == Halted;
      s.(cpus := s.cpus[i := c.(status := Started,
                                phase := if woken then Lock(TestHeld, fromUser, true) else Entered(fromUser))])
    case Entered(fromUser) => WithPhase(s, i, if fromUser then Lock(TestHeld, true, false) else Kernel)
    case Lock(TestHeld, fromUser, waking) =>
      WithPhase(s, i, if Holding(s, i) then Panic else Lock(Exchange, fromUser, waking))
    case Lock(Exchange, fromUser, waking) =>
      if s.locked then s else WithPhase(s.(locked := true), i, Lock(RecordOwner, fromUser, waking))
    case Lock(RecordOwner, fromUser, waking) =>
      WithPhase(s.(owner := i), i, if waking then Entered(fromUser) else Reap)
    case Reap =>
      if HasCur(s, i) && s.env[c.cur] == Dying then
        s.(env := s.env[c.cur := Free], cpus := s.cpus[i := c.(phase := Kernel, cur := NOBODY)])
      else WithPhase(s, i, Kernel)
    case Unlock(TestHolding, toUser) => WithPhase(s, i, if Holding(s, i) then Unlock(ClearOwner, toUser) else Panic)
    case Unlock(ClearOwner, toUser) => WithPhase(s.(owner := NOBODY), i, Unlock(Release, toUser))
    case Unlock(Release, toUser) => WithPhase(s.(locked := false), i, if toUser then User else Idle)
    case _ => s
  }

  /** env_destroy. */
  function DestroyEnv(s: State, i: nat, e: nat): State
    requires i < |s.cpus| && e < |s.env|
  {
    if s.env[e] == Running && s.cpus[i].cur != e then s.(env := s.env[e := Dying])
    else
      s.(env := s.env[e := Free],
         cpus := if s.cpus[i].cur == e then s.cpus[i := s.cpus[i].(cur := NOBODY)] else s.cpus)
  }

  /** env_run up to its unlock_kernel. */
  function RunEnv(s: State, i: nat, e: nat): State
    requires i < |s.cpus| && e < |s.env|
  {
    var c := s.cpus[i].cur;
    var env := if 0 <= c < |s.env| && s.env[c] == Running then s.env[c := Runnable] else s.env;
    s.(env := env[e := Running], cpus := s.cpus[i := s.cpus[i].(cur := e, phase := Unlock(TestHolding, true))])
  }

  ghost predicate Busy(s: State) {
    exists e :: 0 <= e < |s.env| && (s.env[e].Runnable? || s.env[e].Running? || s.env[e].Dying?)
  }

  ghost predicate AnyRunnable(s: State) { exists e :: 0 <= e < |s.env| && s.env[e] == Runnable }

  /** sched_yield when nothing is RUNNABLE: re-run curenv, halt, or stop for good. */
  ghost function GoOnWithout(s: State, i: nat): State
    requires i < |s.cpus|
  {
    if HasCur(s, i) && s.env[s.cpus[i].cur] == Running then RunEnv(s, i, s.cpus[i].cur)
    else if !Busy(s) then WithPhase(s, i, Monitor)
    else s.(cpus := s.cpus[i := Cpu(Unlock(TestHolding, false), Halted, NOBODY)])
  }

  predicate AtWorkIn(s: State, i: nat) {
    i < |s.cpus| && s.cpus[i].phase == Kernel && HasCur(s, i)
  }

  /** What the code tests before an action, and nothing else. */
  ghost predicate Possible(s: State, i: nat, a: Action) {
    && i < |s.cpus| && |s.recving| == |s.env|
    && match a
       case Interrupt => s.cpus[i].phase.User? || s.cpus[i].phase.Idle?
       case Step => true
       case Create(e) => s.cpus[i].phase == Kernel && e < |s.env| && s.env[e] == Free
       case Exofork(e) => AtWorkIn(s, i) && e < |s.env| && s.env[e] == Free
       case Destroy(e) => AtWorkIn(s, i) && e < |s.env| && s.env[e] != Free
       case SetStatus(e, st) =>
         AtWorkIn(s, i) && e < |s.env| && s.env[e] != Free && (st == Runnable || st == NotRunnable)
       case Receive(_) => AtWorkIn(s, i)
       case Send(e) => AtWorkIn(s, i) && e < |s.env| && s.env[e] != Free && s.recving[e]
       case Return => AtWorkIn(s, i) && s.env[s.cpus[i].cur] == Running
       case Schedule(e) => s.cpus[i].phase == Kernel && e < |s.env| && s.env[e] == Runnable
       case GoOn => s.cpus[i].phase == Kernel && !AnyRunnable(s)
  }

  ghost function Next(s: State, i: nat, a: Action): State
    requires Possible(s, i, a)
  {
    match a
    case Interrupt => WithPhase(s, i, Trapped(s.cpus[i].phase.User?))
    case Step => Advance(s, i)
    case Create(e) => s.(env := s.env[e := Runnable], recving := s.recving[e := false])
    case Exofork(e) => s.(env := s.env[e := NotRunnable], recving := s.recving[e := false])
    case Destroy(e) => DestroyEnv(s, i, e)
    case SetStatus(e, st) => s.(env := s.env[e := st])
    case Receive(valid) =>
      var ready := s.(recving := s.recving[s.cpus[i].cur := true]);
      if valid then ready.(env := s.env[s.cpus[i].cur := NotRunnable]) else ready
    case Send(e) => s.(env := s.env[e := Runnable], recving := s.recving[e := false])
    case Return => RunEnv(s, i, s.cpus[i].cur)
    case Schedule(e) => RunEnv(s, i, e)
    case GoOn => GoOnWithout(s, i)
  }

  // ---------------------------------------------------------------- the invariant

  /** The processor is between taking the lock and giving it back. */
  predicate InKernel(p: Phase) {
    match p
    case Entered(fromUser) => !fromUser
    case Lock(stage, _, _) => stage == RecordOwner
    case Reap => true
    case Kernel => true
    case Unlock(_, _) => true
    case Monitor => true
    case _ => false
  }

  /** ... and kernel_lock.cpu names it. */
  predicate Recorded(p: Phase) {
    InKernel(p) && !p.Lock? && !(p.Unlock? && p.step == Release)
  }

  /** Phases in which curenv must be an environment that is RUNNING or DYING. */
  predicate RunsUser(p: Phase) {
    match p
    case User => true
    case Trapped(fromUser) => fromUser
    case Entered(fromUser) => fromUser
    case Lock(_, fromUser, _) => fromUser
    case Reap => true
    case Unlock(_, toUser) => toUser
    case _ => false
  }

  predicate AtWork(p: Phase) {
    p == User || (p.Unlock? && p.toUser) || p == Kernel || p == Reap || p.Entered? || p.Lock?
  }

  predicate Live(st: Status) { st == Running || st == Dying }

  ghost predicate CpuOk(s: State, i: nat)
    requires i < |s.cpus|
  {
    var c := s.cpus[i];
    && c.phase != Panic
    && (c.phase.Lock? ==> (c.phase.waking <==> !c.phase.fromUser))
    && (c.phase.Trapped? ==> (c.status == Halted <==> !c.phase.fromUser))
    && (c.phase == Idle || (c.phase.Unlock? && !c.phase.toUser) ==> c.status == Halted)
    && (AtWork(c.phase) ==> c.status == Started)
    && (if RunsUser(c.phase) then HasCur(s, i) && Live(s.env[c.cur])
        else if c.phase == Kernel || c.phase == Monitor then c.cur == NOBODY || (HasCur(s, i) && s.env[c.cur] != Dying)
        else c.cur == NOBODY)
  }

  ghost predicate Inv(s: State) {
    && |s.recving| == |s.env|
    && (forall i :: 0 <= i < |s.cpus| ==> CpuOk(s, i))
    && (forall i, j :: 0 <= i < j < |s.cpus| ==> !(InKernel(s.cpus[i].phase) && InKernel(s.cpus[j].phase)))
    && (s.locked <==> exists i :: 0 <= i < |s.cpus| && InKernel(s.cpus[i].phase))
    && (forall i :: 0 <= i < |s.cpus| ==> (s.owner == i <==> Recorded(s.cpus[i].phase)))
    && (forall i, j :: 0 <= i < j < |s.cpus| && s.cpus[i].cur != NOBODY ==> s.cpus[i].cur != s.cpus[j].cur)
    && (forall e :: 0 <= e < |s.env| && Live(s.env[e]) ==> exists i :: 0 <= i < |s.cpus| && s.cpus[i].cur == e)
    && (forall e :: 0 <= e < |s.env| && s.recving[e] ==> s.env[e] == NotRunnable || s.env[e] == Free)
  }

  /** Where the kernel relies on its callers: nothing destroys an environment that is DYING on another processor,
      sys_ipc_recv gets a valid dstva, and set_status is used only as fork does, on an environment that is not
      running and not receiving. */
  ghost predicate Assumed(s: State, i: nat, a: Action)
    requires Possible(s, i, a)
  {
    match a
    case Destroy(e) => s.env[e] != Dying || s.cpus[i].cur == e
    case SetStatus(e, st) => s.env[e] == NotRunnable && !s.recving[e]
    case Receive(valid) => valid
    case _ => true
  }

  // ---------------------------------------------------------------- every step keeps it

  lemma OnlyHolder(s: State, i: nat)
    requires Inv(s) && i < |s.cpus| && InKernel(s.cpus[i].phase)
    ensures s.locked && forall j :: 0 <= j < |s.cpus| && j != i ==> !InKernel(s.cpus[j].phase)
  {
  }

  /** Only processor `i` and the lock's fields differ. */
  ghost predicate OnlyCpu(s: State, s': State, i: nat)
    requires i < |s.cpus|
  {
    && |s'.cpus| == |s.cpus| && s'.recving == s.recving && |s'.env| == |s.env|
    && forall j :: 0 <= j < |s.cpus| && j != i ==> s'.cpus[j] == s.cpus[j]
  }

  /** A step that neither takes nor gives back the lock, nor touches an environment. */
  lemma LocalKeeps(s: State, s': State, i: nat)
    requires Inv(s) && i < |s.cpus| && OnlyCpu(s, s', i) && s'.env == s.env && s'.cpus[i].cur == s.cpus[i].cur
    requires s'.locked == s.locked && InKernel(s'.cpus[i].phase) == InKernel(s.cpus[i].phase) && CpuOk(s', i)
    requires s'.owner == i <==> Recorded(s'.cpus[i].phase)
    requires s'.owner == s.owner || (InKernel(s.cpus[i].phase) && (s'.owner == i || s'.owner == NOBODY))
    ensures Inv(s')
  {
    forall j | 0 <= j < |s.cpus| ensures CpuOk(s', j) && (s'.owner == j <==> Recorded(s'.cpus[j].phase)) {
      if j != i { assert CpuOk(s, j); }
    }
    if s.locked {
      var j :| 0 <= j < |s.cpus| && InKernel(s.cpus[j].phase);
      assert InKernel(s'.cpus[j].phase);
    }
    CursKept(s, s', i);
  }

  lemma CursKept(s: State, s': State, i: nat)
    requires Inv(s) && i < |s.cpus| && OnlyCpu(s, s', i) && s'.cpus[i].cur == s.cpus[i].cur
    ensures forall e :: 0 <= e < |s.env| && Live(s.env[e]) ==> exists j :: 0 <= j < |s'.cpus| && s'.cpus[j].cur == e
  {
    forall e | 0 <= e < |s.env| && Live(s.env[e]) ensures exists j :: 0 <= j < |s'.cpus| && s'.cpus[j].cur == e {
      var j :| 0 <= j < |s.cpus| && s.cpus[j].cur == e;
      assert s'.cpus[j].cur == e;
    }
  }

  lemma AcquireKeeps(s: State, i: nat)
    requires Inv(s) && i < |s.cpus| && s.cpus[i].phase.Lock? && s.cpus[i].phase.stage == Exchange && !s.locked
    ensures Inv(Advance(s, i))
  {
    var s' := Advance(s, i);
    assert InKernel(s'.cpus[i].phase);
    forall j | 0 <= j < |s.cpus| ensures CpuOk(s', j) { assert CpuOk(s, j); }
    CursKept(s, s', i);
  }

  lemma ReleaseKeeps(s: State, i: nat)
    requires Inv(s) && i < |s.cpus| && s.cpus[i].phase.Unlock? && s.cpus[i].phase.step == Release
    ensures Inv(Advance(s, i))
  {
    var s' := Advance(s, i);
    OnlyHolder(s, i);
    forall j | 0 <= j < |s.cpus| ensures CpuOk(s', j) && !InKernel(s'.cpus[j].phase) { assert CpuOk(s, j); }
    CursKept(s, s', i);
  }

  /** The zombie found on the way in is freed. */
  lemma ReapKeeps(s: State, i: nat)
    requires Inv(s) && i < |s.cpus| && s.cpus[i].phase == Reap
    requires HasCur(s, i) && s.env[s.cpus[i].cur] == Dying
    ensures Inv(Advance(s, i))
  {
    var s', c := Advance(s, i), s.cpus[i].cur;
    OnlyHolder(s, i);
    assert CpuOk(s, i);
    forall j | 0 <= j < |s.cpus| ensures CpuOk(s', j) { assert CpuOk(s, j); }
    assert InKernel(s'.cpus[i].phase);
    forall e | 0 <= e < |s'.env| && Live(s'.env[e]) ensures exists j :: 0 <= j < |s'.cpus| && s'.cpus[j].cur == e {
      var j :| 0 <= j < |s.cpus| && s.cpus[j].cur == e;
      assert j != i && s'.cpus[j].cur == e;
    }
  }

  /** The instructions of spin_unlock before the lock is free. */
  lemma UnlockKeeps(s: State, i: nat)
    requires Inv(s) && i < |s.cpus| && s.cpus[i].phase.Unlock? && s.cpus[i].phase.step != Release
    ensures Inv(Advance(s, i))
  {
    OnlyHolder(s, i);
    assert CpuOk(s, i);
    LocalKeeps(s, Advance(s, i), i);
  }

  /** The instructions of spin_lock other than the exchange that takes the lock. */
  lemma LockKeeps(s: State, i: nat)
    requires Inv(s) && i < |s.cpus| && s.cpus[i].phase.Lock? && (s.cpus[i].phase.stage == Exchange ==> s.locked)
    ensures Inv(Advance(s, i))
  {
    assert CpuOk(s, i);
    LocalKeeps(s, Advance(s, i), i);
  }

  lemma AdvanceKeeps(s: State, i: nat)
    requires Inv(s) && i < |s.cpus|
    ensures Inv(Advance(s, i))
  {
    var p := s.cpus[i].phase;
    assert CpuOk(s, i);
    if p.Lock? {
      if p.stage == Exchange && !s.locked { AcquireKeeps(s, i); } else { LockKeeps(s, i); }
    } else if p.Unlock? {
      if p.step == Release { ReleaseKeeps(s, i); } else { UnlockKeeps(s, i); }
    } else if p == Reap && s.env[s.cpus[i].cur] == Dying {
      ReapKeeps(s, i);
    } else {
      LocalKeeps(s, Advance(s, i), i);
    }
  }

  // ---------------------------------------------------------------- kernel work

  /** Kernel work of processor `i` is sound when every environment current elsewhere stays live, every live one
      is current somewhere, and receivers are blocked. */
  lemma WorkKeeps(s: State, s': State, i: nat)
    requires Inv(s) && i < |s.cpus| && s.cpus[i].phase == Kernel
    requires |s'.cpus| == |s.cpus| && |s'.env| == |s.env| == |s'.recving|
    requires s'.locked == s.locked && s'.owner == s.owner
    requires forall j :: 0 <= j < |s.cpus| && j != i ==>
               s'.cpus[j] == s.cpus[j] && (0 <= s.cpus[j].cur < |s.env| ==> Live(s'.env[s.cpus[j].cur]))
    requires forall e :: 0 <= e < |s.env| && Live(s'.env[e]) ==> exists j :: 0 <= j < |s.cpus| && s'.cpus[j].cur == e
    requires forall e :: 0 <= e < |s.env| && s'.recving[e] ==> s'.env[e] == NotRunnable || s'.env[e] == Free
    requires CpuOk(s', i) && Recorded(s'.cpus[i].phase)
    requires s'.cpus[i].cur != NOBODY ==> forall j :: 0 <= j < |s.cpus| && j != i ==> s.cpus[j].cur != s'.cpus[i].cur
    ensures Inv(s')
  {
    OnlyHolder(s, i);
    forall j | 0 <= j < |s.cpus| ensures CpuOk(s', j) && (s'.owner == j <==> Recorded(s'.cpus[j].phase)) {
      if j != i { assert CpuOk(s, j); }
    }
    assert InKernel(s'.cpus[i].phase);
  }

  lemma Current(s: State, e: nat, i: nat)
    requires Inv(s) && e < |s.env| && Live(s.env[e]) && i < |s.cpus| && s.cpus[i].cur != e
    ensures exists j :: 0 <= j < |s.cpus| && j != i && s.cpus[j].cur == e
  {
    var j :| 0 <= j < |s.cpus| && s.cpus[j].cur == e;
  }

  lemma OtherCur(s: State, i: nat, j: nat)
    requires Inv(s) && i < |s.cpus| && j < |s.cpus| && i != j && s.cpus[i].phase == Kernel
    ensures s.cpus[j].cur == NOBODY || (HasCur(s, j) && Live(s.env[s.cpus[j].cur]) && s.cpus[j].cur != s.cpus[i].cur)
  {
    OnlyHolder(s, i);
    assert CpuOk(s, j);
  }

  /** One slot gets a state that is not live, while no other processor runs it. */
  lemma ParkKeeps(s: State, s': State, i: nat, e: nat)
    requires Inv(s) && i < |s.cpus| && s.cpus[i].phase == Kernel && e < |s.env|
    requires |s'.env| == |s.env| && s'.env == s.env[e := s'.env[e]] && !Live(s'.env[e])
    requires s'.locked == s.locked && s'.owner == s.owner
    requires forall j :: 0 <= j < |s.cpus| && j != i ==> s.cpus[j].cur != e
    requires s'.cpus == s.cpus || (s'.cpus == s.cpus[i := s.cpus[i].(cur := NOBODY)] && s.cpus[i].cur == e)
    requires |s'.recving| == |s.recving| && (s'.recving[e] ==> s'.env[e] == NotRunnable || s'.env[e] == Free)
    requires forall f :: 0 <= f < |s.env| && f != e ==> s'.recving[f] == s.recving[f]
    ensures Inv(s')
  {
    forall j | 0 <= j < |s.cpus| && j != i
      ensures s'.cpus[j] == s.cpus[j] && (0 <= s.cpus[j].cur < |s.env| ==> Live(s'.env[s.cpus[j].cur]))
    {
      OtherCur(s, i, j);
    }
    forall f | 0 <= f < |s.env| && Live(s'.env[f]) ensures exists j :: 0 <= j < |s.cpus| && s'.cpus[j].cur == f {
      var j :| 0 <= j < |s.cpus| && s.cpus[j].cur == f;
      assert s'.cpus[j].cur == f;
    }
    assert CpuOk(s, i);
    forall j | 0 <= j < |s.cpus| && j != i && s'.cpus[i].cur != NOBODY ensures s.cpus[j].cur != s'.cpus[i].cur {
      OtherCur(s, i, j);
    }
    WorkKeeps(s, s', i);
  }

  lemma NotElsewhere(s: State, i: nat, e: nat)
    requires Inv(s) && i < |s.cpus| && s.cpus[i].phase == Kernel && e < |s.env|
    requires !Live(s.env[e]) || s.cpus[i].cur == e
    ensures forall j :: 0 <= j < |s.cpus| && j != i ==> s.cpus[j].cur != e
  {
    forall j | 0 <= j < |s.cpus| && j != i ensures s.cpus[j].cur != e { OtherCur(s, i, j); }
  }

  /** env_destroy marks an environment running elsewhere and frees any other. */
  lemma DestroyKeeps(s: State, i: nat, e: nat)
    requires Inv(s) && Possible(s, i, Destroy(e)) && Assumed(s, i, Destroy(e))
    ensures Inv(DestroyEnv(s, i, e))
  {
    var s' := DestroyEnv(s, i, e);
    if s.env[e] == Running && s.cpus[i].cur != e {
      forall j | 0 <= j < |s.cpus| && j != i
        ensures 0 <= s.cpus[j].cur < |s.env| ==> Live(s'.env[s.cpus[j].cur])
        ensures s'.cpus[i].cur != NOBODY ==> s.cpus[j].cur != s'.cpus[i].cur
      {
        OtherCur(s, i, j);
      }
      forall f | 0 <= f < |s.env| && Live(s'.env[f]) ensures exists j :: 0 <= j < |s.cpus| && s'.cpus[j].cur == f {
        assert Live(s.env[f]);
      }
      assert CpuOk(s, i);
      WorkKeeps(s, s', i);
    } else {
      NotElsewhere(s, i, e);
      ParkKeeps(s, s', i, e);
    }
  }

  lemma RunKeepsCurrent(s: State, i: nat, e: nat)
    requires Inv(s) && i < |s.cpus| && s.cpus[i].phase == Kernel && e < |s.env|
    ensures var s' := RunEnv(s, i, e); forall f :: 0 <= f < |s.env| && Live(s'.env[f]) ==>
              exists j :: 0 <= j < |s.cpus| && s'.cpus[j].cur == f
  {
    var s' := RunEnv(s, i, e);
    assert CpuOk(s, i);
    forall f | 0 <= f < |s.env| && Live(s'.env[f]) ensures exists j :: 0 <= j < |s.cpus| && s'.cpus[j].cur == f {
      if f == e {
        assert s'.cpus[i].cur == f;
      } else {
        var j :| 0 <= j < |s.cpus| && s.cpus[j].cur == f;
        assert j != i && s'.cpus[j].cur == f;
      }
    }
  }

  /** env_run: the environment left goes back to RUNNABLE, the one entered is current here and nowhere else. */
  lemma RunKeeps(s: State, i: nat, e: nat)
    requires Inv(s) && i < |s.cpus| && s.cpus[i].phase == Kernel && e < |s.env|
    requires s.env[e] == Runnable || (s.cpus[i].cur == e && s.env[e] == Running)
    ensures Inv(RunEnv(s, i, e))
  {
    var s' := RunEnv(s, i, e);
    NotElsewhere(s, i, e);
    forall j | 0 <= j < |s.cpus| && j != i
      ensures s'.cpus[j] == s.cpus[j] && (0 <= s.cpus[j].cur < |s.env| ==> Live(s'.env[s.cpus[j].cur]))
    {
      OtherCur(s, i, j);
    }
    RunKeepsCurrent(s, i, e);
    assert CpuOk(s, i) && CpuOk(s', i);
    assert forall f :: 0 <= f < |s.env| && s.recving[f] ==> s.env[f] == NotRunnable || s.env[f] == Free;
    assert s.cpus[i].cur == NOBODY || s.cpus[i].cur < |s.env|;
    hide Inv, CpuOk;
    WorkKeeps(s, s', i);
  }

  /** A processor with no RUNNING environment stops; what was current there is not live. */
  lemma StopKeeps(s: State, s': State, i: nat)
    requires Inv(s) && i < |s.cpus| && s.cpus[i].phase == Kernel
    requires HasCur(s, i) ==> !Live(s.env[s.cpus[i].cur])
    requires s' == s.(cpus := s'.cpus) && OnlyCpu(s, s', i)
    requires s'.cpus[i].cur == s.cpus[i].cur || s'.cpus[i].cur == NOBODY
    requires CpuOk(s', i) && Recorded(s'.cpus[i].phase)
    ensures Inv(s')
  {
    forall j | 0 <= j < |s.cpus| && j != i
      ensures 0 <= s.cpus[j].cur < |s.env| ==> Live(s.env[s.cpus[j].cur])
      ensures s'.cpus[i].cur != NOBODY ==> s.cpus[j].cur != s'.cpus[i].cur
    {
      OtherCur(s, i, j);
    }
    forall f | 0 <= f < |s.env| && Live(s'.env[f]) ensures exists j :: 0 <= j < |s.cpus| && s'.cpus[j].cur == f {
      var j :| 0 <= j < |s.cpus| && s.cpus[j].cur == f;
      assert s'.cpus[j].cur == f;
    }
    WorkKeeps(s, s', i);
  }

  lemma GoOnKeeps(s: State, i: nat)
    requires Inv(s) && Possible(s, i, GoOn)
    ensures Inv(GoOnWithout(s, i))
  {
    assert CpuOk(s, i);
    hide Inv;
    if HasCur(s, i) && s.env[s.cpus[i].cur] == Running {
      RunKeeps(s, i, s.cpus[i].cur);
    } else {
      StopKeeps(s, GoOnWithout(s, i), i);
    }
  }

  /** Every action of every processor keeps the invariant, under the assumptions on destroy and set_status. */
  lemma NextKeeps(s: State, i: nat, a: Action)
    requires Inv(s) && Possible(s, i, a) && Assumed(s, i, a)
    ensures Inv(Next(s, i, a))
  {
    hide Inv, CpuOk;
    match a
    case Interrupt => InterruptKeeps(s, i);
    case Step => AdvanceKeeps(s, i);
    case Create(e) => NotElsewhere(s, i, e); ParkKeeps(s, Next(s, i, a), i, e);
    case Exofork(e) => NotElsewhere(s, i, e); ParkKeeps(s, Next(s, i, a), i, e);
    case Destroy(e) => DestroyKeeps(s, i, e);
    case SetStatus(e, st) => NotElsewhere(s, i, e); ParkKeeps(s, Next(s, i, a), i, e);
    case Receive(_) => NotElsewhere(s, i, s.cpus[i].cur); ParkKeeps(s, Next(s, i, a), i, s.cpus[i].cur);
    case Send(e) => Receiver(s, e); NotElsewhere(s, i, e); ParkKeeps(s, Next(s, i, a), i, e);
    case Return => RunKeeps(s, i, s.cpus[i].cur);
    case Schedule(e) => RunKeeps(s, i, e);
    case GoOn => GoOnKeeps(s, i);
  }

  lemma Receiver(s: State, e: nat)
    requires Inv(s) && e < |s.env| && s.recving[e]
    ensures !Live(s.env[e])
  {
  }

  lemma InterruptKeeps(s: State, i: nat)
    requires Inv(s) && Possible(s, i, Interrupt)
    ensures Inv(Next(s, i, Interrupt))
  {
    assert CpuOk(s, i);
    LocalKeeps(s, Next(s, i, Interrupt), i);
  }

  // ---------------------------------------------------------------- every reachable state

  /** i386_init: the boot processor holds the lock, the others are about to take it in mp_main; no environment
      exists. */
  ghost predicate Init(s: State) {
    && |s.cpus| > 0 && |s.recving| == |s.env| && s.locked && s.owner == 0
    && s.cpus[0] == Cpu(Kernel, Started, NOBODY)
    && (forall i :: 0 < i < |s.cpus| ==> s.cpus[i] == Cpu(Lock(TestHeld, false, true), Started, NOBODY))
    && (forall e :: 0 <= e < |s.env| ==> s.env[e] == Free)
  }

  datatype Event = Event(cpu: nat, action: Action)

  ghost predicate Runs(s: State, events: seq<Event>)
    decreases |events|
  {
    events == [] ||
    (Possible(s, events[0].cpu, events[0].action) && Assumed(s, events[0].cpu, events[0].action) &&
     Runs(Next(s, events[0].cpu, events[0].action), events[1..]))
  }

  ghost function After(s: State, events: seq<Event>): State
    requires Runs(s, events)
    decreases |events|
  {
    if events == [] then s else After(Next(s, events[0].cpu, events[0].action), events[1..])
  }

  lemma InitHolds(s: State)
    requires Init(s)
    ensures Inv(s)
  {
    assert InKernel(s.cpus[0].phase);
  }

  lemma {:induction false} RunKeepsInv(s: State, events: seq<Event>)
    requires Inv(s) && Runs(s, events)
    ensures Inv(After(s, events))
    decreases |events|
  {
    hide Inv, Next, Possible, Assumed;
    if events != [] {
      NextKeeps(s, events[0].cpu, events[0].action);
      RunKeepsInv(Next(s, events[0].cpu, events[0].action), events[1..]);
    }
  }

  /** What the lock and the scheduler are for: at most one processor is inside the kernel, none reaches a lock
      panic, no environment is current on two processors, none is taken away from under a processor that runs it,
      and while the lock is free an environment is RUNNING or DYING exactly when it is some processor's curenv. */
  ghost predicate Promise(t: State) {
    && (forall i, j :: 0 <= i < j < |t.cpus| ==> !(InKernel(t.cpus[i].phase) && InKernel(t.cpus[j].phase)))
    && (forall i :: 0 <= i < |t.cpus| ==> t.cpus[i].phase != Panic)
    && (forall i, j :: 0 <= i < j < |t.cpus| && t.cpus[i].cur != NOBODY ==> t.cpus[i].cur != t.cpus[j].cur)
    && (forall i :: 0 <= i < |t.cpus| && RunsUser(t.cpus[i].phase) ==> HasCur(t, i) && Live(t.env[t.cpus[i].cur]))
    && (!t.locked ==> forall e :: 0 <= e < |t.env| ==>
          (Live(t.env[e]) <==> exists i :: 0 <= i < |t.cpus| && t.cpus[i].cur == e))
  }

  lemma InvKeepsPromise(t: State)
    requires Inv(t)
    ensures Promise(t)
  {
    forall i | 0 <= i < |t.cpus|
      ensures t.cpus[i].phase != Panic
      ensures RunsUser(t.cpus[i].phase) ==> HasCur(t, i) && Live(t.env[t.cpus[i].cur])
    {
      assert CpuOk(t, i);
    }
    if !t.locked {
      forall e, i | 0 <= e < |t.env| && 0 <= i < |t.cpus| && t.cpus[i].cur == e ensures Live(t.env[e]) {
        assert CpuOk(t, i) && !InKernel(t.cpus[i].phase);
      }
    }
  }

  /** The promise is kept in every interleaving from boot. */
  lemma SafeInEveryRun(s: State, events: seq<Event>)
    requires Init(s) && Runs(s, events)
    ensures Promise(After(s, events))
  {
    InitHolds(s);
    RunKeepsInv(s, events);
    InvKeepsPromise(After(s, events));
  }
}
