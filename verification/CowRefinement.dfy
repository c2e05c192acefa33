/** Copy-on-write fork refines eager copying: over every run, each environment reads what it would read
    had every fork copied all pages at once. */
module CowRefinement {
  import opened IntrusiveList
  import opened PageModel
  import opened PageProofs
  import opened AddressSpace
  import opened Lifetime
  import opened CowFork

  // ---------------------------------------------------------------- duppage

  /** Room for the two references duppage takes before it gives one back. */
  ghost predicate Room(s: Mem) {
    forall p :: 0 <= p < |s.refs| ==> s.refs[p] < REF_LIMIT - 2
  }

  lemma MappedView(s: Mem, e: nat, v: nat, loose: set<int>)
    requires Inv(s, loose, NULL) && PageSlot(e, v) in AllSlots()
    ensures FlatAt(s, e, v) == 0 <==> ViewAt(s, e, v) == Unmapped
    ensures FlatAt(s, e, v) != 0 ==> ViewAt(s, e, v).data == s.words[EntryPage(FlatAt(s, e, v))]
  {
    if FlatAt(s, e, v) != 0 { MappedIsUser(s, PageSlot(e, v), loose); }
  }

  /** One more entry is at most one more reference. */
  lemma RefsGrow(s: Mem, s': Mem, e: nat, v: nat, w: nat, p: nat, loose: set<int>)
    requires Inv(s, loose, NULL) && Inv(s', loose, NULL) && FlatUpdated(s, s', e, v, w) && SameFrame(s, s')
    requires PageSlot(e, v) in AllSlots() && UserPage(s, p) && !IsTable(s', p)
    ensures p < |s.refs| && s'.refs[p] <= s.refs[p] + 1
  {
    var grown := Refs(s, p) + {PageSlot(e, v)};
    forall sl | sl in Refs(s', p) ensures sl in grown {
      assert sl.PageSlot? by { assert !IsTable(s', p); }
      assert FlatAt(s', sl.e, sl.v) == if sl == PageSlot(e, v) then w else FlatAt(s, sl.e, sl.v);
    }
    SubsetSize(Refs(s', p), grown);
  }

  lemma {:induction false} SubsetSize<T>(a: set<T>, b: set<T>)
    requires a <= b
    ensures |a| <= |b|
  {
    assert b == a + (b - a);
  }

  lemma NotWritable(p: nat, perm: nat)
    requires perm == SHARED || perm == READ_ONLY
    ensures var w := Entry(p, perm);
            w != 0 && EntryPage(w) == p && !Writable(w) && User(w) && (CanWrite(w) <==> perm == SHARED)
  {
    EntryFlags(p, perm);
  }

  /** Sharing the page of (parent, v) without write access, in the parent too when it had any. */
  lemma SharedWriters(s: Mem, s1: Mem, s2: Mem, parent: nat, child: nat, v: nat, w: nat)
    requires WritersAlone(s) && EntriesUser(s) && parent != child
    requires PageSlot(parent, v) in AllSlots() && PageSlot(child, v) in AllSlots() && FlatAt(s, parent, v) != 0
    requires w != 0 && !Writable(w) && User(w) && EntryPage(w) == EntryPage(FlatAt(s, parent, v))
    requires FlatUpdated(s, s1, child, v, w)
    requires FlatUpdated(s1, s2, parent, v, w) || (s2 == s1 && !Writable(FlatAt(s, parent, v)))
    ensures WritersAlone(s2) && EntriesUser(s2)
  {
    var px, cx := PageSlot(parent, v), PageSlot(child, v);
    forall x, y | x in AllSlots() && y in AllSlots() && x.PageSlot? && y.PageSlot? && x != y
      ensures Writable(FlatAt(s2, x.e, x.v)) && FlatAt(s2, y.e, y.v) != 0 ==> Target(s2, x) != Target(s2, y)
    {
      assert FlatAt(s2, x.e, x.v) == FlatAt(s, x.e, x.v) || FlatAt(s2, x.e, x.v) == w;
      assert y != cx && y != px ==> FlatAt(s2, y.e, y.v) == FlatAt(s, y.e, y.v);
      if Writable(FlatAt(s2, x.e, x.v)) {
        assert x != cx && x != px;
        assert Target(s, x) != Target(s, px);
      }
    }
  }

  /** duppage lets the child read what the parent reads and changes no other view, the parent's included. */
  lemma DupPageCorrect(s: Mem, parent: nat, child: nat, v: nat, loose: set<int>)
    requires Core(s, loose) && parent != child && PageSlot(parent, v) in AllSlots() && PageSlot(child, v) in AllSlots()
    requires Root(s, parent) != NULL && Root(s, child) != NULL && FlatAt(s, parent, v) != 0 && Room(s)
    requires DupPage(s, parent, child, v).1
    ensures var s' := DupPage(s, parent, child, v).0;
            && Core(s', loose) && s'.roots == s.roots && OtherViewsKept(s, s', child, v)
            && ViewAt(s', child, v) == ViewAt(s, parent, v)
            && (forall e2, v2 :: PageSlot(e2, v2) in AllSlots() && e2 != parent && e2 != child ==>
                  FlatAt(s', e2, v2) == FlatAt(s, e2, v2))
  {
    hide Inv, MapAt, FlatAt, WritersAlone;
    var pte := FlatAt(s, parent, v);
    var p := EntryPage(pte);
    MappedView(s, parent, v, loose);
    MappedInRange(s, parent, v, loose);
    if Writable(pte) || CopyOnWrite(pte) {
      var w := Entry(p, SHARED);
      NotWritable(p, SHARED);
      var s1 := MapAt(s, parent, v, child, v, SHARED).0;
      MapStep(s, parent, v, child, v, SHARED, loose);
      DupAgain(s, s1, parent, child, v, w, loose);
      var s2 := MapAt(s1, parent, v, parent, v, SHARED).0;
      MapStep(s1, parent, v, parent, v, SHARED, loose);
      SharedWriters(s, s1, s2, parent, child, v, w);
    } else {
      NotWritable(p, READ_ONLY);
      var s1 := MapAt(s, parent, v, child, v, READ_ONLY).0;
      MapStep(s, parent, v, child, v, READ_ONLY, loose);
      SharedWriters(s, s1, s1, parent, child, v, Entry(p, READ_ONLY));
    }
  }

  lemma MappedInRange(s: Mem, e: nat, v: nat, loose: set<int>)
    requires Inv(s, loose, NULL) && PageSlot(e, v) in AllSlots() && FlatAt(s, e, v) != 0 && Room(s)
    ensures EntryPage(FlatAt(s, e, v)) < |s.refs| && s.refs[EntryPage(FlatAt(s, e, v))] < REF_LIMIT - 2
  {
    MappedIsUser(s, PageSlot(e, v), loose);
  }

  lemma DupAgain(s: Mem, s1: Mem, parent: nat, child: nat, v: nat, w: nat, loose: set<int>)
    requires Inv(s, loose, NULL) && Inv(s1, loose, NULL) && Room(s) && FlatUpdated(s, s1, child, v, w)
    requires parent != child && PageSlot(parent, v) in AllSlots() && PageSlot(child, v) in AllSlots()
    requires FlatAt(s, parent, v) != 0 && SameFrame(s, s1)
    ensures FlatAt(s1, parent, v) == FlatAt(s, parent, v)
    ensures EntryPage(FlatAt(s1, parent, v)) < |s1.refs| && s1.refs[EntryPage(FlatAt(s1, parent, v))] < REF_LIMIT - 1
  {
    MappedIsUser(s, PageSlot(parent, v), loose);
    MappedIsUser(s1, PageSlot(parent, v), loose);
    RefsGrow(s, s1, child, v, w, EntryPage(FlatAt(s, parent, v)), loose);
  }

  // ---------------------------------------------------------------- fork

  /** The child has the parent's pages below `n`, the exception stack apart, and nothing else; every other
      environment reads in `s` what it read in `s0`. */
  ghost predicate Copied(s0: Mem, s: Mem, parent: int, child: int, n: int) {
    && s.roots == s0.roots
    && (forall e, v :: PageSlot(e, v) in AllSlots() && e != child ==> ViewAt(s, e, v) == ViewAt(s0, e, v))
    && (forall v :: PageSlot(child, v) in AllSlots() ==>
          ViewAt(s, child, v) == if v < n && v != EXCEPTION_STACK then ViewAt(s0, parent, v) else Unmapped)
  }

  /** The environment sees no page. */
  ghost predicate Blank(s: Mem, e: int) {
    forall v :: PageSlot(e, v) in AllSlots() ==> ViewAt(s, e, v) == Unmapped
  }

  ghost predicate LoopRoom(s: Mem, parent: int, child: int, n: nat) {
    forall k: nat :: k < n ==> Room(ForkLoop(s, parent, child, k).0)
  }

  lemma CopiedOne(s0: Mem, s: Mem, s': Mem, parent: nat, child: nat, n: nat)
    requires Copied(s0, s, parent, child, n) && parent != child && s'.roots == s.roots
    requires PageSlot(parent, n) in AllSlots() && PageSlot(child, n) in AllSlots()
    requires OtherViewsKept(s, s', child, n)
    requires ViewAt(s', child, n) == if n == EXCEPTION_STACK then Unmapped else ViewAt(s, parent, n)
    ensures Copied(s0, s', parent, child, n + 1)
  {
  }

  lemma LoopTests(s: Mem, e: nat, v: nat, loose: set<int>)
    requires Core(s, loose) && PageSlot(e, v) in AllSlots()
    ensures Present(Pde(s, e, v / ENTRIES)) && Present(FlatAt(s, e, v)) && User(FlatAt(s, e, v)) <==>
            FlatAt(s, e, v) != 0
    ensures !Present(Pde(s, e, v / ENTRIES)) ==> FlatAt(s, e, v) == 0
  {
    assert DirSlot(e, v / ENTRIES) in AllSlots();
  }

  /** One round of the loop: the child reads at `v` what the parent reads, the exception stack apart, and no other view
      changes. */
  lemma ForkOneCorrect(s: Mem, parent: nat, child: nat, v: nat, loose: set<int>)
    requires Core(s, loose) && parent < ENVS && child < ENVS && parent != child && v < USER_PAGES
    requires Root(s, parent) != NULL && Root(s, child) != NULL && Room(s) && ForkOne(s, parent, child, v).1
    requires ViewAt(s, child, v) == Unmapped
    ensures var s' := ForkOne(s, parent, child, v).0;
            && Core(s', loose) && s'.roots == s.roots && OtherViewsKept(s, s', child, v)
            && ViewAt(s', child, v) == (if v == EXCEPTION_STACK then Unmapped else ViewAt(s, parent, v))
            && (forall e2, v2 :: PageSlot(e2, v2) in AllSlots() && e2 != parent && e2 != child ==>
                  FlatAt(s', e2, v2) == FlatAt(s, e2, v2))
  {
    hide Inv, DupPage, FlatAt, WritersAlone, EntriesUser, ViewAt, Room;
    assert PageSlot(parent, v) in AllSlots() && PageSlot(child, v) in AllSlots();
    LoopTests(s, parent, v, loose);
    MappedView(s, parent, v, loose);
    if v != EXCEPTION_STACK && FlatAt(s, parent, v) != 0 {
      DupPageCorrect(s, parent, child, v, loose);
    }
  }

  lemma {:induction false} ForkLoopCorrect(s: Mem, parent: nat, child: nat, n: nat, loose: set<int>)
    requires Core(s, loose) && parent < ENVS && child < ENVS && parent != child && n <= USER_PAGES
    requires Root(s, parent) != NULL && Root(s, child) != NULL && LoopRoom(s, parent, child, n)
    requires Blank(s, child)
    requires ForkLoop(s, parent, child, n).1
    ensures Core(ForkLoop(s, parent, child, n).0, loose) && Copied(s, ForkLoop(s, parent, child, n).0, parent, child, n)
  {
    hide Inv, ForkOne, FlatAt, WritersAlone, EntriesUser, ViewAt;
    if n > 0 {
      ForkLoopCorrect(s, parent, child, n - 1, loose);
      var s1 := ForkLoop(s, parent, child, n - 1).0;
      ForkOneCorrect(s1, parent, child, n - 1, loose);
      CopiedOne(s, s1, ForkLoop(s, parent, child, n).0, parent, child, n - 1);
    }
  }

  /** An environment that gets an address space sees nothing in it; all others see what they saw. */
  lemma SetupViews(s: Mem, e: nat, loose: set<int>)
    requires Core(s, loose) && e < ENVS && Root(s, e) == NULL && SetupVm(s, e).1
    ensures var s' := SetupVm(s, e).0;
            && Core(s', loose) && Root(s', e) != NULL && (forall e2 :: e2 != e ==> Root(s', e2) == Root(s, e2))
            && (forall e2, v :: PageSlot(e2, v) in AllSlots() ==> ViewAt(s', e2, v) == ViewAt(s, e2, v))
            && Blank(s', e)
            && (forall e2, v :: PageSlot(e2, v) in AllSlots() ==> FlatAt(s', e2, v) == FlatAt(s, e2, v))
  {
    hide SetupVm, Inv;
    SetupVmCorrect(s, e, loose);
    var s' := SetupVm(s, e).0;
    SameEntriesWriters(s, s');
    SameEntriesViews(s, s', loose);
  }

  lemma SameEntriesWriters(s: Mem, s': Mem)
    requires WritersAlone(s) && EntriesUser(s)
    requires forall e, v :: PageSlot(e, v) in AllSlots() ==>
               FlatAt(s', e, v) == FlatAt(s, e, v) || FlatAt(s', e, v) == 0
    ensures WritersAlone(s') && EntriesUser(s')
  {
    forall x, y | x in AllSlots() && y in AllSlots() && x.PageSlot? && y.PageSlot? && x != y
      ensures Writable(FlatAt(s', x.e, x.v)) && FlatAt(s', y.e, y.v) != 0 ==> Target(s', x) != Target(s', y)
    {
      assert PageSlot(x.e, x.v) == x && PageSlot(y.e, y.v) == y;
    }
  }

  lemma SameEntriesViews(s: Mem, s': Mem, loose: set<int>)
    requires Inv(s, loose, NULL) && SameContents(s, s')
    ensures forall e, v :: PageSlot(e, v) in AllSlots() && FlatAt(s', e, v) == FlatAt(s, e, v) ==>
              ViewAt(s', e, v) == ViewAt(s, e, v)
  {
    forall e, v | PageSlot(e, v) in AllSlots() && FlatAt(s', e, v) == FlatAt(s, e, v)
      ensures ViewAt(s', e, v) == ViewAt(s, e, v)
    {
      if FlatAt(s, e, v) != 0 { MappedIsUser(s, PageSlot(e, v), loose); }
    }
  }

  lemma TempView(s: Mem, loose: set<int>)
    requires Inv(s, loose, NULL)
    ensures TempUnmapped(s) <==> forall e :: 0 <= e < ENVS ==> ViewAt(s, e, PFTEMP) == Unmapped
  {
    forall e | 0 <= e < ENVS ensures FlatAt(s, e, PFTEMP) == 0 <==> ViewAt(s, e, PFTEMP) == Unmapped {
      assert PageSlot(e, PFTEMP) in AllSlots();
      MappedView(s, e, PFTEMP, loose);
    }
  }

  ghost predicate ForkRoom(s: Mem, parent: int, child: int) {
    LoopRoom(SetupVm(s, child).0, parent, child, USER_PAGES)
  }

  /** fork gives the child the parent's view of every page but the exception stack, and leaves every view of
      every other environment as it was. */
  lemma ForkCorrect(s: Mem, parent: nat, child: nat, loose: set<int>)
    requires CowInv(s, loose) && parent < ENVS && child < ENVS && parent != child
    requires Root(s, parent) != NULL && Root(s, child) == NULL && ForkEnv(s, parent, child).1
    requires ForkRoom(s, parent, child)
    ensures var s' := ForkEnv(s, parent, child).0;
            && CowInv(s', loose) && Root(s', child) != NULL && (forall e :: e != child ==> Root(s', e) == Root(s, e))
            && (forall e, v :: PageSlot(e, v) in AllSlots() && e != child ==> ViewAt(s', e, v) == ViewAt(s, e, v))
            && (forall v :: PageSlot(child, v) in AllSlots() && v != EXCEPTION_STACK ==>
                  ViewAt(s', child, v) == ViewAt(s, parent, v))
  {
    hide Inv, SetupVm, ForkLoop, AllocAt, FlatAt, ViewAt, WritersAlone, EntriesUser, TempUnmapped;
    SetupViews(s, child, loose);
    var s1 := SetupVm(s, child).0;
    ForkLoopCorrect(s1, parent, child, USER_PAGES, loose);
    var s2 := ForkLoop(s1, parent, child, USER_PAGES).0;
    assert PageSlot(child, EXCEPTION_STACK) in AllSlots();
    assert forall e :: 0 <= e < ENVS ==> PageSlot(e, PFTEMP) in AllSlots();
    AllocStep(s2, child, EXCEPTION_STACK, READ_WRITE, loose);
    TempView(s, loose);
    TempView(ForkEnv(s, parent, child).0, loose);
  }

  // ---------------------------------------------------------------- runs

  /** What the environments of a run do. Alloc's `avail` are the three PTE_AVAIL bits, the highest of them
      PTE_COW. */
  datatype UserOp =
    | Create(e: nat)
    | Fork(parent: nat, child: nat)
    | Write(e: nat, v: nat, i: nat, x: nat)
    | Alloc(e: nat, v: nat, writable: bool, avail: nat)
    | Unmap(e: nat, v: nat)
    | Exit(e: nat)

  function AllocPerm(writable: bool, avail: nat): (perm: nat)
    requires avail < 8
    ensures perm < 4096 && User(perm) && Writable(perm) == writable && CopyOnWrite(perm) == (avail >= 4)
  {
    avail * 512 + PTE_U + PTE_P + if writable then PTE_W else 0
  }

  predicate OwnPage(v: nat) { v < USER_PAGES && v != PFTEMP && v != EXCEPTION_STACK }

  /** What a run leaves out: a write to a read-only or unmapped page, and mapping calls on the two pages the
      fault handler owns. */
  predicate Allowed(s: Mem, op: UserOp) {
    match op
    case Create(e) => e < ENVS && Root(s, e) == NULL
    case Fork(parent, child) =>
      parent < ENVS && child < ENVS && parent != child && Root(s, parent) != NULL && Root(s, child) == NULL
    case Write(e, v, i, _) => e < ENVS && OwnPage(v) && i < ENTRIES && Root(s, e) != NULL && CanWrite(FlatAt(s, e, v))
    case Alloc(e, v, _, avail) => e < ENVS && OwnPage(v) && avail < 8 && Root(s, e) != NULL
    case Unmap(e, v) => e < ENVS && OwnPage(v) && Root(s, e) != NULL
    case Exit(e) => e < ENVS && Root(s, e) != NULL
  }

  /** A store to a page mapped writable. */
  function Store(s: Mem, e: int, v: int, i: nat, x: nat): Mem {
    var p := Lookup(s, e, v);
    if 0 <= p < |s.words| && i < |s.words[p]| then SetPage(s, p, s.words[p][i := x]) else s
  }

  /** A store that faults on a copy-on-write page first runs pgfault; false stands for a panic. */
  function UserWrite(s: Mem, e: int, v: int, i: nat, x: nat): (Mem, bool) {
    if Writable(FlatAt(s, e, v)) then (Store(s, e, v, i, x), true)
    else
      var (s1, ok) := PageFault(s, e, v);
      if !ok then (s1, false) else (Store(s1, e, v, i, x), true)
  }

  /** One step; false stands for a call that failed or panicked. */
  function CowStep(s: Mem, op: UserOp): (Mem, bool)
    requires Allowed(s, op)
  {
    match op
    case Create(e) => SetupVm(s, e)
    case Fork(parent, child) => ForkEnv(s, parent, child)
    case Write(e, v, i, x) => UserWrite(s, e, v, i, x)
    case Alloc(e, v, writable, avail) => AllocAt(s, e, v, AllocPerm(writable, avail))
    case Unmap(e, v) => (Remove(s, e, v), true)
    case Exit(e) => (FreeEnv(s, e), true)
  }

  /** The eager system: what each environment reads at each page, all copies made at fork. */
  type Eager = (int, int) -> View

  function Put(m: Eager, e: int, v: int, view: View): Eager {
    (e2, v2) => if e2 == e && v2 == v then view else m(e2, v2)
  }

  function EagerStep(m: Eager, op: UserOp): Eager {
    match op
    case Create(e) => m
    case Fork(parent, child) => (e, v) => if e == child then m(parent, v) else m(e, v)
    case Write(e, v, i, x) =>
      if m(e, v).Page? && i < |m(e, v).data| then Put(m, e, v, Page(m(e, v).data[i := x], m(e, v).canWrite)) else m
    case Alloc(e, v, writable, avail) => Put(m, e, v, Page(ZeroPage(), writable || avail >= 4))
    case Unmap(e, v) => Put(m, e, v, Unmapped)
    case Exit(e) => (e2, v) => if e2 == e then Unmapped else m(e2, v)
  }

  /** Every environment reads in `s` what it reads in the eager system, its exception stack apart. */
  ghost predicate Agrees(s: Mem, m: Eager) {
    forall e, v :: PageSlot(e, v) in AllSlots() && v != EXCEPTION_STACK ==> ViewAt(s, e, v) == m(e, v)
  }

  ghost predicate StepRoom(s: Mem, op: UserOp) {
    op.Fork? ==> ForkRoom(s, op.parent, op.child)
  }

  /** A run no call of which fails, with room in every reference count. */
  ghost predicate Runs(s: Mem, ops: seq<UserOp>)
    decreases |ops|
  {
    ops == [] ||
    (Allowed(s, ops[0]) && StepRoom(s, ops[0]) && CowStep(s, ops[0]).1 && Runs(CowStep(s, ops[0]).0, ops[1..]))
  }

  ghost function CowRun(s: Mem, ops: seq<UserOp>): Mem
    requires Runs(s, ops)
    decreases |ops|
  {
    if ops == [] then s else CowRun(CowStep(s, ops[0]).0, ops[1..])
  }

  function EagerRun(m: Eager, ops: seq<UserOp>): Eager
    decreases |ops|
  {
    if ops == [] then m else EagerRun(EagerStep(m, ops[0]), ops[1..])
  }

  /** What a step owes the refinement, stated on views: nobody's directory changes but those the step names,
      and the views move as in the eager system. */
  ghost predicate StepKeeps(s: Mem, s': Mem, m: Eager, op: UserOp, loose: set<int>) {
    CowInv(s', loose) && Agrees(s', EagerStep(m, op))
  }

  lemma StoreCorrect(s: Mem, e: nat, v: nat, i: nat, x: nat, loose: set<int>)
    requires CowInv(s, loose) && PageSlot(e, v) in AllSlots() && v != PFTEMP && i < ENTRIES && Writable(FlatAt(s, e, v))
    ensures var s' := Store(s, e, v, i, x);
            && CowInv(s', loose) && OtherViewsKept(s, s', e, v)
            && ViewAt(s, e, v).Page? && |ViewAt(s, e, v).data| == ENTRIES
            && ViewAt(s', e, v) == Page(ViewAt(s, e, v).data[i := x], true)
  {
    MappedIsUser(s, PageSlot(e, v), loose);
    assert forall e2 :: 0 <= e2 < ENVS ==> PageSlot(e2, PFTEMP) in AllSlots();
    WriteCorrect(s, e, v, s.words[EntryPage(FlatAt(s, e, v))][i := x], loose);
  }

  lemma WriteStep(s: Mem, m: Eager, op: UserOp, loose: set<int>)
    requires CowInv(s, loose) && Agrees(s, m) && op.Write? && Allowed(s, op) && CowStep(s, op).1
    ensures StepKeeps(s, CowStep(s, op).0, m, op, loose)
  {
    hide Inv, PageFault, FlatAt, ViewAt, Store, WritersAlone, EntriesUser;
    var e, v := op.e, op.v;
    assert PageSlot(e, v) in AllSlots();
    WriteView(s, e, v, loose);
    if Writable(FlatAt(s, e, v)) {
      StoreCorrect(s, e, v, op.i, op.x, loose);
    } else {
      PageFaultCorrect(s, e, v, loose);
      StoreCorrect(PageFault(s, e, v).0, e, v, op.i, op.x, loose);
    }
  }

  lemma WriteView(s: Mem, e: nat, v: nat, loose: set<int>)
    requires Inv(s, loose, NULL) && PageSlot(e, v) in AllSlots() && CanWrite(FlatAt(s, e, v))
    ensures ViewAt(s, e, v).Page? && ViewAt(s, e, v).canWrite && |ViewAt(s, e, v).data| == ENTRIES
  {
    MappedIsUser(s, PageSlot(e, v), loose);
  }

  lemma MapCallStep(s: Mem, m: Eager, op: UserOp, loose: set<int>)
    requires CowInv(s, loose) && Agrees(s, m) && (op.Alloc? || op.Unmap?) && Allowed(s, op) && CowStep(s, op).1
    ensures StepKeeps(s, CowStep(s, op).0, m, op, loose)
  {
    hide Inv, AllocAt, Remove, FlatAt, ViewAt, WritersAlone, EntriesUser, TempUnmapped;
    var e, v := op.e, op.v;
    assert PageSlot(e, v) in AllSlots();
    assert forall e2 :: 0 <= e2 < ENVS ==> PageSlot(e2, PFTEMP) in AllSlots();
    TempView(s, loose);
    if op.Alloc? {
      AllocStep(s, e, v, AllocPerm(op.writable, op.avail), loose);
    } else {
      UnmapStep(s, e, v, loose);
    }
    TempView(CowStep(s, op).0, loose);
  }

  lemma LifeStep(s: Mem, m: Eager, op: UserOp, loose: set<int>)
    requires CowInv(s, loose) && Agrees(s, m) && (op.Create? || op.Exit?) && Allowed(s, op) && CowStep(s, op).1
    ensures StepKeeps(s, CowStep(s, op).0, m, op, loose)
  {
    hide Inv, SetupVm, FreeEnv, ViewAt, FlatAt, WritersAlone, EntriesUser, TempUnmapped;
    var s' := CowStep(s, op).0;
    assert forall e2 :: 0 <= e2 < ENVS ==> PageSlot(e2, PFTEMP) in AllSlots();
    TempView(s, loose);
    if op.Create? {
      SetupViews(s, op.e, loose);
    } else {
      ExitViews(s, op.e, loose);
    }
    TempView(s', loose);
  }

  lemma ExitViews(s: Mem, e: nat, loose: set<int>)
    requires Core(s, loose) && e < ENVS && Root(s, e) != NULL
    ensures var s' := FreeEnv(s, e);
            && Core(s', loose) && (forall e2 :: Root(s', e2) == if e2 == e then NULL else Root(s, e2))
            && (forall e2, v :: PageSlot(e2, v) in AllSlots() ==>
                  ViewAt(s', e2, v) == if e2 == e then Unmapped else ViewAt(s, e2, v))
            && (forall e2, v :: PageSlot(e2, v) in AllSlots() && e2 != e ==> FlatAt(s', e2, v) == FlatAt(s, e2, v))
  {
    hide Inv, FreeEnv;
    FreeEnvCorrect(s, e, loose);
    var s' := FreeEnv(s, e);
    NoSpace(s', e);
    SameEntriesWriters(s, s');
    SameEntriesViews(s, s', loose);
  }

  lemma StepCorrect(s: Mem, m: Eager, op: UserOp, loose: set<int>)
    requires CowInv(s, loose) && Agrees(s, m) && Allowed(s, op) && StepRoom(s, op) && CowStep(s, op).1
    ensures StepKeeps(s, CowStep(s, op).0, m, op, loose)
  {
    hide CowInv, ForkEnv, ForkRoom, ViewAt;
    match op
    case Fork(parent, child) => ForkCorrect(s, parent, child, loose);
    case Write(_, _, _, _) => WriteStep(s, m, op, loose);
    case Alloc(_, _, _, _) => MapCallStep(s, m, op, loose);
    case Unmap(_, _) => MapCallStep(s, m, op, loose);
    case Create(_) => LifeStep(s, m, op, loose);
    case Exit(_) => LifeStep(s, m, op, loose);
  }

  /** Copy-on-write fork refines eager copying, over every run of creations, forks, writes, allocations,
      unmappings and exits. */
  lemma {:induction false} CowRefinesEager(s: Mem, m: Eager, ops: seq<UserOp>, loose: set<int>)
    requires CowInv(s, loose) && Agrees(s, m) && Runs(s, ops)
    ensures CowInv(CowRun(s, ops), loose) && Agrees(CowRun(s, ops), EagerRun(m, ops))
    decreases |ops|
  {
    hide CowInv, Agrees, CowStep, EagerStep;
    if ops != [] {
      StepCorrect(s, m, ops[0], loose);
      CowRefinesEager(CowStep(s, ops[0]).0, EagerStep(m, ops[0]), ops[1..], loose);
    }
  }

  /** From boot: whatever a run does, every read of it is the eager system's. */
  lemma ReadsFromBoot(s: Mem, ops: seq<UserOp>, e: nat, v: nat)
    requires Inv(s, {}, NULL) && (forall i :: Root(s, i) == NULL) && Runs(s, ops)
    requires PageSlot(e, v) in AllSlots() && v != EXCEPTION_STACK
    ensures ViewAt(CowRun(s, ops), e, v) == EagerRun((_, _) => Unmapped, ops)(e, v)
  {
    forall i, j ensures FlatAt(s, i, j) == 0 { NoSpace(s, i); }
    CowRefinesEager(s, (_, _) => Unmapped, ops, {});
  }
}
