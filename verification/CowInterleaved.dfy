/** Copy-on-write fork among other environments: between the pages of a fork, and between the first system call of
    pgfault and its others, everybody else goes on. Each environment still reads what eager copying would have it
    read, and a fork whose parent waits copies what the parent had at its start. */
module CowInterleaved {
  import opened IntrusiveList
  import opened PageModel
  import opened PageProofs
  import opened AddressSpace
  import opened Lifetime
  import opened CowFork
  import opened CowRefinement

  /** A fork under way: its parent, and the page its loop comes to next. */
  datatype Progress = Progress(parent: nat, next: nat)

  /** forks: by child. faults: the page at which an environment is in pgfault, PFTEMP being mapped. */
  datatype State = State(mem: Mem, forks: map<nat, Progress>, faults: map<nat, nat>)

  datatype Event =
    | User(op: UserOp)                       // anything but a fork or a store that faults
    | FaultBegin(e: nat, v: nat)             // a store to a copy-on-write page: pgfault's sys_page_alloc
    | FaultEnd(e: nat)                       // its copy and its other two system calls
    | ForkBegin(parent: nat, child: nat)     // sys_exofork
    | ForkPage(child: nat)                   // one round of fork's loop
    | ForkEnd(child: nat)                    // the child's exception stack

  /** The environment runs its own code: it is neither a child that is not runnable yet nor in pgfault. */
  predicate Ready(t: State, e: nat) { e !in t.forks && e !in t.faults }

  predicate Forking(t: State, e: nat) { exists c :: c in t.forks && t.forks[c].parent == e }

  ghost predicate Possible(t: State, ev: Event) {
    match ev
    case User(op) =>
      && Allowed(t.mem, op)
      && match op {
           case Create(_) => true
           case Fork(_, _) => false
           case Write(e, v, _, _) => Ready(t, e) && Writable(FlatAt(t.mem, e, v))
           case Alloc(e, _, _, _) => Ready(t, e)
           case Unmap(e, _) => Ready(t, e)
           case Exit(_) => true
         }
    case FaultBegin(e, v) =>
      e < ENVS && OwnPage(v) && Root(t.mem, e) != NULL && Ready(t, e) && CanWrite(FlatAt(t.mem, e, v))
    case FaultEnd(e) => e in t.faults
    case ForkBegin(parent, child) => Allowed(t.mem, Fork(parent, child)) && Ready(t, parent) && !Forking(t, parent)
    case ForkPage(child) =>
      child in t.forks && t.forks[child].next < USER_PAGES && Ready(t, t.forks[child].parent) && Room(t.mem)
    case ForkEnd(child) =>
      child in t.forks && t.forks[child].next == USER_PAGES && Ready(t, t.forks[child].parent)
  }

  /** The forks and faults an exit leaves. */
  function ForksWithout(t: State, e: nat): map<nat, Progress> {
    map c | c in t.forks && c != e && t.forks[c].parent != e :: t.forks[c]
  }

  /** One step; false stands for a call that failed or panicked. */
  ghost function Next(t: State, ev: Event): (State, bool)
    requires Possible(t, ev)
  {
    match ev
    case User(op) =>
      var (s, ok) := CowStep(t.mem, op);
      (if op.Exit? then State(s, ForksWithout(t, op.e), t.faults - {op.e}) else t.(mem := s), ok)
    case FaultBegin(e, v) =>
      var (s, ok) := AllocAt(t.mem, e, PFTEMP, READ_WRITE);
      (t.(mem := s, faults := t.faults[e := v]), ok)
    case FaultEnd(e) =>
      var (s, ok) := CopyAndRemap(t.mem, e, t.faults[e]);
      (t.(mem := s, faults := t.faults - {e}), ok)
    case ForkBegin(parent, child) =>
      var (s, ok) := SetupVm(t.mem, child);
      (t.(mem := s, forks := t.forks[child := Progress(parent, 0)]), ok)
    case ForkPage(child) =>
      var Progress(parent, v) := t.forks[child];
      var (s, ok) := ForkOne(t.mem, parent, child, v);
      (t.(mem := s, forks := t.forks[child := Progress(parent, v + 1)]), ok)
    case ForkEnd(child) =>
      var (s, ok) := AllocAt(t.mem, child, EXCEPTION_STACK, READ_WRITE);
      (t.(mem := s, forks := t.forks - {child}), ok)
  }

  /** The eager system: a fork copies each page when its loop comes to it, and there are no faults. */
  ghost function EagerNext(t: State, m: Eager, ev: Event): Eager
    requires Possible(t, ev)
  {
    match ev
    case User(op) => EagerStep(m, op)
    case ForkPage(child) =>
      var Progress(parent, v) := t.forks[child];
      if v == EXCEPTION_STACK then m else Put(m, child, v, m(parent, v))
    case _ => m
  }

  // ---------------------------------------------------------------- the invariant

  /** Every environment reads in memory what it reads in the eager system; its exception stack apart, and PFTEMP
      while it is in pgfault. */
  ghost predicate Same(t: State, m: Eager) {
    forall e, v :: PageSlot(e, v) in AllSlots() && v != EXCEPTION_STACK ==>
      (v == PFTEMP ==> m(e, v) == Unmapped) && (!(v == PFTEMP && e in t.faults) ==> ViewAt(t.mem, e, v) == m(e, v))
  }

  ghost predicate ForkOk(t: State, c: nat)
    requires c in t.forks
  {
    var Progress(parent, next) := t.forks[c];
    && c < ENVS && parent < ENVS && c != parent && next <= USER_PAGES && c !in t.faults && parent !in t.forks
    && Root(t.mem, c) != NULL && Root(t.mem, parent) != NULL
    && forall v :: PageSlot(c, v) in AllSlots() && v >= next ==> ViewAt(t.mem, c, v) == Unmapped
  }

  ghost predicate FaultOk(t: State, e: nat)
    requires e in t.faults
  {
    && e < ENVS && OwnPage(t.faults[e]) && Root(t.mem, e) != NULL && Writable(FlatAt(t.mem, e, PFTEMP))
    && ViewAt(t.mem, e, t.faults[e]).Page? && ViewAt(t.mem, e, t.faults[e]).canWrite
  }

  ghost predicate StateInv(t: State, m: Eager, loose: set<int>) {
    && Core(t.mem, loose) && Same(t, m)
    && (forall c :: c in t.forks ==> ForkOk(t, c)) && (forall e :: e in t.faults ==> FaultOk(t, e))
  }

  /** Nothing of the environments other than `who` has changed. */
  ghost predicate OthersSame(s: Mem, s': Mem, who: set<nat>) {
    && (forall e: nat :: e !in who ==> Root(s', e) == Root(s, e))
    && (forall e: nat, v :: PageSlot(e, v) in AllSlots() && e !in who ==>
          FlatAt(s', e, v) == FlatAt(s, e, v) && ViewAt(s', e, v) == ViewAt(s, e, v))
  }

  lemma ForkKept(t: State, t': State, c: nat, who: set<nat>)
    requires c in t.forks && ForkOk(t, c) && c in t'.forks && t'.forks[c] == t.forks[c]
    requires OthersSame(t.mem, t'.mem, who) && c !in who && c !in t'.faults && t.forks[c].parent !in t'.forks
    requires Root(t'.mem, t.forks[c].parent) != NULL
    ensures ForkOk(t', c)
  {
  }

  lemma FaultKept(t: State, t': State, e: nat, who: set<nat>)
    requires e in t.faults && FaultOk(t, e) && e in t'.faults && t'.faults[e] == t.faults[e]
    requires OthersSame(t.mem, t'.mem, who) && e !in who
    ensures FaultOk(t', e)
  {
    assert PageSlot(e, PFTEMP) in AllSlots() && PageSlot(e, t.faults[e]) in AllSlots();
  }

  /** The forks and faults that go on through a step of `e`, which is in none of them but perhaps the parent of one. */
  lemma OthersGoOn(t: State, s': Mem, e: nat)
    requires (forall c :: c in t.forks ==> ForkOk(t, c)) && (forall f :: f in t.faults ==> FaultOk(t, f))
    requires Ready(t, e) && OthersSame(t.mem, s', {e}) && (Root(t.mem, e) != NULL ==> Root(s', e) != NULL)
    ensures var t' := t.(mem := s');
            (forall c :: c in t'.forks ==> ForkOk(t', c)) && (forall f :: f in t'.faults ==> FaultOk(t', f))
  {
    var t' := t.(mem := s');
    forall c | c in t'.forks ensures ForkOk(t', c) {
      assert ForkOk(t, c);
      ForkKept(t, t', c, {e});
    }
    forall f | f in t'.faults ensures FaultOk(t', f) {
      assert FaultOk(t, f);
      FaultKept(t, t', f, {e});
    }
  }

  /** Only the entry of `e` at `v` has changed, and with it that view. */
  lemma OneViewStep(t: State, m: Eager, s': Mem, m': Eager, e: nat, v: nat, loose: set<int>)
    requires StateInv(t, m, loose) && Ready(t, e) && e < ENVS && OwnPage(v) && Core(s', loose)
    requires OnlyChanged(t.mem, s', e, v) && ViewAt(s', e, v) == m'(e, v)
    requires forall e2, v2 :: !(e2 == e && v2 == v) ==> m'(e2, v2) == m(e2, v2)
    ensures StateInv(t.(mem := s'), m', loose)
  {
    hide Core, ForkOk, FaultOk, ViewAt, FlatAt;
    OthersGoOn(t, s', e);
  }

  // ---------------------------------------------------------------- steps of user code

  lemma StoreKeeps(s: Mem, e: nat, v: nat, i: nat, x: nat, loose: set<int>)
    requires Core(s, loose) && PageSlot(e, v) in AllSlots() && i < ENTRIES && Writable(FlatAt(s, e, v))
    ensures var s' := Store(s, e, v, i, x);
            && Core(s', loose) && OnlyChanged(s, s', e, v)
            && ViewAt(s, e, v).Page? && |ViewAt(s, e, v).data| == ENTRIES
            && ViewAt(s', e, v) == Page(ViewAt(s, e, v).data[i := x], true)
  {
    MappedIsUser(s, PageSlot(e, v), loose);
    WriteCorrect(s, e, v, s.words[EntryPage(FlatAt(s, e, v))][i := x], loose);
  }

  lemma UserStep(t: State, m: Eager, op: UserOp, loose: set<int>)
    requires StateInv(t, m, loose) && Possible(t, User(op)) && Next(t, User(op)).1
    requires op.Write? || op.Alloc? || op.Unmap?
    ensures StateInv(Next(t, User(op)).0, EagerStep(m, op), loose)
  {
    hide Core, Inv, StateInv, AllocAt, Remove, Store, FlatAt, ViewAt;
    var e, v := op.e, op.v;
    assert PageSlot(e, v) in AllSlots();
    assert Core(t.mem, loose) && Same(t, m) by { StateParts(t, m, loose); }
    if op.Write? {
      CoreInv(t.mem, loose);
      WriteView(t.mem, e, v, loose);
      StoreKeeps(t.mem, e, v, op.i, op.x, loose);
    } else if op.Alloc? {
      AllocStep(t.mem, e, v, AllocPerm(op.writable, op.avail), loose);
    } else {
      UnmapStep(t.mem, e, v, loose);
    }
    OneViewStep(t, m, Next(t, User(op)).0.mem, EagerStep(m, op), e, v, loose);
  }

  lemma StateParts(t: State, m: Eager, loose: set<int>)
    requires StateInv(t, m, loose)
    ensures Core(t.mem, loose) && Same(t, m)
    ensures (forall c :: c in t.forks ==> ForkOk(t, c)) && (forall e :: e in t.faults ==> FaultOk(t, e))
  {
  }

  lemma CreateStep(t: State, m: Eager, e: nat, loose: set<int>)
    requires StateInv(t, m, loose) && Possible(t, User(Create(e))) && Next(t, User(Create(e))).1
    ensures StateInv(Next(t, User(Create(e))).0, m, loose)
  {
    hide Core, SetupVm, ViewAt, FlatAt;
    SetupViews(t.mem, e, loose);
    NotBusy(t, e);
    OthersGoOn(t, SetupVm(t.mem, e).0, e);
  }

  /** An environment without an address space is in no fork and no fault. */
  lemma NotBusy(t: State, e: nat)
    requires (forall c :: c in t.forks ==> ForkOk(t, c)) && (forall f :: f in t.faults ==> FaultOk(t, f))
    requires Root(t.mem, e) == NULL
    ensures Ready(t, e) && !Forking(t, e)
  {
  }

  lemma ExitStep(t: State, m: Eager, e: nat, loose: set<int>)
    requires StateInv(t, m, loose) && Possible(t, User(Exit(e)))
    ensures StateInv(Next(t, User(Exit(e))).0, EagerStep(m, Exit(e)), loose)
  {
    hide Core, FreeEnv, ViewAt, FlatAt;
    ExitViews(t.mem, e, loose);
    var t' := Next(t, User(Exit(e))).0;
    forall c | c in t'.forks ensures ForkOk(t', c) {
      assert ForkOk(t, c);
      ForkKept(t, t', c, {e});
    }
    forall f | f in t'.faults ensures FaultOk(t', f) {
      assert FaultOk(t, f);
      FaultKept(t, t', f, {e});
    }
  }

  // ---------------------------------------------------------------- pgfault

  lemma FaultBeginStep(t: State, m: Eager, e: nat, v: nat, loose: set<int>)
    requires StateInv(t, m, loose) && Possible(t, FaultBegin(e, v)) && Next(t, FaultBegin(e, v)).1
    ensures StateInv(Next(t, FaultBegin(e, v)).0, m, loose)
  {
    hide Core, AllocAt, ViewAt, FlatAt;
    assert PageSlot(e, PFTEMP) in AllSlots() && PageSlot(e, v) in AllSlots();
    CoreInv(t.mem, loose);
    WriteView(t.mem, e, v, loose);
    AllocStep(t.mem, e, PFTEMP, READ_WRITE, loose);
    var s' := AllocAt(t.mem, e, PFTEMP, READ_WRITE).0;
    OthersGoOn(t, s', e);
    var t' := Next(t, FaultBegin(e, v)).0;
    assert FaultOk(t', e);
    forall f | f in t'.faults ensures FaultOk(t', f) {
      if f != e { assert FaultOk(t.(mem := s'), f); }
    }
    forall c | c in t'.forks ensures ForkOk(t', c) { assert ForkOk(t.(mem := s'), c); }
  }

  lemma CoreInv(s: Mem, loose: set<int>)
    requires Core(s, loose)
    ensures Inv(s, loose, NULL)
  {
  }

  lemma FaultEndStep(t: State, m: Eager, e: nat, loose: set<int>)
    requires StateInv(t, m, loose) && Possible(t, FaultEnd(e)) && Next(t, FaultEnd(e)).1
    ensures StateInv(Next(t, FaultEnd(e)).0, m, loose)
  {
    hide Core, CopyAndRemap, ViewAt, FlatAt;
    var v := t.faults[e];
    assert FaultOk(t, e);
    assert PageSlot(e, PFTEMP) in AllSlots() && PageSlot(e, v) in AllSlots();
    FaultTail(t.mem, e, v, loose);
    var s' := CopyAndRemap(t.mem, e, v).0;
    EmptyView(s', e, PFTEMP);
    var t' := Next(t, FaultEnd(e)).0;
    forall f | f in t'.faults ensures FaultOk(t', f) {
      assert FaultOk(t, f);
      FaultKept(t, t', f, {e});
    }
    forall c | c in t'.forks ensures ForkOk(t', c) {
      assert ForkOk(t, c);
      ForkKept(t, t', c, {e});
    }
  }

  lemma EmptyView(s: Mem, e: nat, v: nat)
    requires FlatAt(s, e, v) == 0
    ensures ViewAt(s, e, v) == Unmapped
  {
  }

  // ---------------------------------------------------------------- fork

  lemma ForkBeginStep(t: State, m: Eager, parent: nat, child: nat, loose: set<int>)
    requires StateInv(t, m, loose) && Possible(t, ForkBegin(parent, child)) && Next(t, ForkBegin(parent, child)).1
    ensures StateInv(Next(t, ForkBegin(parent, child)).0, m, loose)
  {
    hide Core, SetupVm, ViewAt, FlatAt;
    SetupViews(t.mem, child, loose);
    NotBusy(t, child);
    var s' := SetupVm(t.mem, child).0;
    OthersGoOn(t, s', child);
    var t' := Next(t, ForkBegin(parent, child)).0;
    assert ForkOk(t', child);
    forall c | c in t'.forks ensures ForkOk(t', c) {
      if c != child { assert ForkOk(t.(mem := s'), c); }
    }
    forall f | f in t'.faults ensures FaultOk(t', f) { assert FaultOk(t.(mem := s'), f); }
  }

  lemma ForkPageStep(t: State, m: Eager, child: nat, loose: set<int>)
    requires StateInv(t, m, loose) && Possible(t, ForkPage(child)) && Next(t, ForkPage(child)).1
    ensures StateInv(Next(t, ForkPage(child)).0, EagerNext(t, m, ForkPage(child)), loose)
  {
    hide Core, ForkOne, ViewAt, FlatAt, Room;
    var Progress(parent, v) := t.forks[child];
    assert ForkOk(t, child);
    assert PageSlot(parent, v) in AllSlots() && PageSlot(child, v) in AllSlots();
    ForkOneCorrect(t.mem, parent, child, v, loose);
    var t' := Next(t, ForkPage(child)).0;
    assert ForkOk(t', child);
    forall c | c in t'.forks ensures ForkOk(t', c) {
      if c != child {
        assert ForkOk(t, c);
        ForkKept(t, t', c, {parent, child});
      }
    }
    forall f | f in t'.faults ensures FaultOk(t', f) {
      assert FaultOk(t, f);
      FaultKept(t, t', f, {parent, child});
    }
  }

  lemma ForkEndStep(t: State, m: Eager, child: nat, loose: set<int>)
    requires StateInv(t, m, loose) && Possible(t, ForkEnd(child)) && Next(t, ForkEnd(child)).1
    ensures StateInv(Next(t, ForkEnd(child)).0, m, loose)
  {
    hide Core, AllocAt, ViewAt, FlatAt;
    assert ForkOk(t, child);
    assert PageSlot(child, EXCEPTION_STACK) in AllSlots();
    AllocStep(t.mem, child, EXCEPTION_STACK, READ_WRITE, loose);
    var t' := Next(t, ForkEnd(child)).0;
    forall c | c in t'.forks ensures ForkOk(t', c) {
      assert ForkOk(t, c);
      ForkKept(t, t', c, {child});
    }
    forall f | f in t'.faults ensures FaultOk(t', f) {
      assert FaultOk(t, f);
      FaultKept(t, t', f, {child});
    }
  }

  lemma NextCorrect(t: State, m: Eager, ev: Event, loose: set<int>)
    requires StateInv(t, m, loose) && Possible(t, ev) && Next(t, ev).1
    ensures StateInv(Next(t, ev).0, EagerNext(t, m, ev), loose)
  {
    hide StateInv, CowStep, AllocAt, CopyAndRemap, SetupVm, ForkOne;
    match ev
    case User(op) =>
      if op.Create? {
        CreateStep(t, m, op.e, loose);
      } else if op.Exit? {
        ExitStep(t, m, op.e, loose);
      } else {
        UserStep(t, m, op, loose);
      }
    case FaultBegin(e, v) => FaultBeginStep(t, m, e, v, loose);
    case FaultEnd(e) => FaultEndStep(t, m, e, loose);
    case ForkBegin(parent, child) => ForkBeginStep(t, m, parent, child, loose);
    case ForkPage(child) => ForkPageStep(t, m, child, loose);
    case ForkEnd(child) => ForkEndStep(t, m, child, loose);
  }

  // ---------------------------------------------------------------- whole runs

  ghost predicate Run(t: State, events: seq<Event>)
    decreases |events|
  {
    events == [] || (Possible(t, events[0]) && Next(t, events[0]).1 && Run(Next(t, events[0]).0, events[1..]))
  }

  ghost function After(t: State, events: seq<Event>): State
    requires Run(t, events)
    decreases |events|
  {
    if events == [] then t else After(Next(t, events[0]).0, events[1..])
  }

  ghost function EagerAfter(t: State, m: Eager, events: seq<Event>): Eager
    requires Run(t, events)
    decreases |events|
  {
    if events == [] then m else EagerAfter(Next(t, events[0]).0, EagerNext(t, m, events[0]), events[1..])
  }

  /** Whatever order the rounds of forks, the halves of page faults and the steps of all other environments come in,
      everybody reads what eager copying page by page gives. */
  lemma {:induction false} InterleavedRefinesEager(t: State, m: Eager, events: seq<Event>, loose: set<int>)
    requires StateInv(t, m, loose) && Run(t, events)
    ensures StateInv(After(t, events), EagerAfter(t, m, events), loose)
    decreases |events|
  {
    hide StateInv, Next, EagerNext, Possible;
    if events != [] {
      NextCorrect(t, m, events[0], loose);
      InterleavedRefinesEager(Next(t, events[0]).0, EagerNext(t, m, events[0]), events[1..], loose);
    }
  }

  /** From boot, without environments. */
  lemma ReadsAmongOthers(s: Mem, events: seq<Event>, e: nat, v: nat)
    requires Inv(s, {}, NULL) && (forall i :: Root(s, i) == NULL) && Run(State(s, map[], map[]), events)
    requires PageSlot(e, v) in AllSlots() && v != EXCEPTION_STACK && v != PFTEMP
    ensures ViewAt(After(State(s, map[], map[]), events).mem, e, v) ==
            EagerAfter(State(s, map[], map[]), (_, _) => Unmapped, events)(e, v)
  {
    var t, m: Eager := State(s, map[], map[]), (_, _) => Unmapped;
    forall i, j ensures FlatAt(s, i, j) == 0 { NoSpace(s, i); }
    assert StateInv(t, m, {});
    InterleavedRefinesEager(t, m, events, {});
  }

  // ---------------------------------------------------------------- a fork whose parent waits

  /** The event is no mapping call, no store and no end of the parent or of the child whose fork is under way. */
  predicate LeavesAlone(ev: Event, parent: nat, child: nat) {
    match ev
    case User(op) => op.Fork? || (op.e != parent && op.e != child)
    case ForkEnd(c) => c != child
    case _ => true
  }

  /** What the eager system holds while the fork is under way; `m0` is what it held at its start. */
  ghost predicate HalfCopied(t: State, m: Eager, m0: Eager, parent: nat, child: nat) {
    && child in t.forks && t.forks[child].parent == parent && child != parent && t.forks[child].next <= USER_PAGES
    && (forall v :: m(parent, v) == m0(parent, v))
    && (forall v :: 0 <= v < t.forks[child].next && v != EXCEPTION_STACK ==> m(child, v) == m0(parent, v))
  }

  lemma HalfCopiedStep(t: State, m: Eager, m0: Eager, parent: nat, child: nat, ev: Event)
    requires HalfCopied(t, m, m0, parent, child) && parent !in t.forks && Possible(t, ev) && Next(t, ev).1
    requires Root(t.mem, child) != NULL && LeavesAlone(ev, parent, child)
    ensures HalfCopied(Next(t, ev).0, EagerNext(t, m, ev), m0, parent, child)
  {
  }

  lemma {:induction false} HalfCopiedRun(t: State, m: Eager, m0: Eager, parent: nat, child: nat, events: seq<Event>,
                                         loose: set<int>)
    requires StateInv(t, m, loose) && HalfCopied(t, m, m0, parent, child) && Run(t, events)
    requires forall i :: 0 <= i < |events| ==> LeavesAlone(events[i], parent, child)
    ensures HalfCopied(After(t, events), EagerAfter(t, m, events), m0, parent, child)
    decreases |events|
  {
    hide Core, Same, HalfCopied, Next, EagerNext, Possible, LeavesAlone;
    if events != [] {
      assert child in t.forks && t.forks[child].parent == parent by { HalfCopiedNow(t, m, m0, parent, child); }
      assert ForkOk(t, child);
      hide StateInv, ForkOk;
      NextCorrect(t, m, events[0], loose);
      HalfCopiedStep(t, m, m0, parent, child, events[0]);
      HalfCopiedRun(Next(t, events[0]).0, EagerNext(t, m, events[0]), m0, parent, child, events[1..], loose);
    }
  }

  lemma HalfCopiedNow(t: State, m: Eager, m0: Eager, parent: nat, child: nat)
    requires HalfCopied(t, m, m0, parent, child)
    ensures child in t.forks && t.forks[child].parent == parent
  {
  }

  /** A fork whose parent only runs its loop gives the child, page for page, what the parent had when it began,
      whatever all other environments do between its rounds. */
  lemma ForkAmongOthers(t: State, m: Eager, parent: nat, child: nat, events: seq<Event>, v: nat, loose: set<int>)
    requires StateInv(t, m, loose) && Possible(t, ForkBegin(parent, child)) && Next(t, ForkBegin(parent, child)).1
    requires Run(Next(t, ForkBegin(parent, child)).0, events)
    requires forall i :: 0 <= i < |events| ==> LeavesAlone(events[i], parent, child)
    requires v < USER_PAGES && v != EXCEPTION_STACK && v != PFTEMP
    ensures var t' := After(Next(t, ForkBegin(parent, child)).0, events);
            && child in t'.forks
            && (t'.forks[child].next == USER_PAGES ==> ViewAt(t'.mem, child, v) == ViewAt(t.mem, parent, v))
  {
    var t0 := Next(t, ForkBegin(parent, child)).0;
    assert HalfCopied(t0, m, m, parent, child);
    assert PageSlot(parent, v) in AllSlots() && PageSlot(child, v) in AllSlots();
    assert ViewAt(t.mem, parent, v) == m(parent, v);
    hide ViewAt, Core, ForkOk, FaultOk, Next, Possible, LeavesAlone;
    NextCorrect(t, m, ForkBegin(parent, child), loose);
    assert EagerNext(t, m, ForkBegin(parent, child)) == m;
    HalfCopiedRun(t0, m, m, parent, child, events, loose);
    InterleavedRefinesEager(t0, m, events, loose);
  }
}
