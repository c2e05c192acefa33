/** The system calls that fill an address space, and the round trip from env_setup_vm to env_free. */
module Lifetime {
  import opened IntrusiveList
  import opened PageModel
  import opened PageProofs
  import opened AddressSpace

  // ---------------------------------------------------------------- page_alloc

  lemma AfterAllocWords(s: Mem, fill: seq<nat>, loose: set<int>)
    requires Inv(s, loose, NULL) && s.free != [] && |fill| == ENTRIES
    ensures var s', p := AfterAlloc(s, fill), s.free[0];
            && p >= 0 && Managed(s, p) && Shape(s') && s'.words == s.words[p := fill]
            && (forall e, d :: DirSlot(e, d) in AllSlots() ==> Pde(s', e, d) == Pde(s, e, d))
            && (forall e, v :: PageSlot(e, v) in AllSlots() ==> FlatAt(s', e, v) == FlatAt(s, e, v))
  {
    var s', p := AfterAlloc(s, fill), s.free[0];
    assert p in s.free;
    forall e, d | DirSlot(e, d) in AllSlots() ensures Pde(s', e, d) == Pde(s, e, d) {
      var sl := RootSlot(e);
      assert sl in AllSlots() && Target(s, sl) == Root(s, e);
      if Root(s, e) != NULL { Referenced(s, sl, loose, NULL); }
    }
    forall e, v | PageSlot(e, v) in AllSlots() ensures FlatAt(s', e, v) == FlatAt(s, e, v) {
      var sl := DirSlot(e, v / ENTRIES);
      assert sl in AllSlots();
      if Pde(s, e, v / ENTRIES) != 0 {
        Referenced(s, sl, loose, NULL);
        assert Target(s, sl) == EntryPage(Pde(s, e, v / ENTRIES));
      }
    }
  }

  ghost predicate SameMap(s: Mem, s': Mem) {
    && s'.roots == s.roots && |s'.words| == |s.words|
    && forall e, v :: PageSlot(e, v) in AllSlots() ==> FlatAt(s', e, v) == FlatAt(s, e, v)
  }

  /** page_alloc hands out a page nobody refers to and changes no mapping. */
  lemma AllocCorrect(s: Mem, fill: seq<nat>, loose: set<int>)
    requires Inv(s, loose, NULL) && s.free != [] && |fill| == ENTRIES
    ensures var s', p := AfterAlloc(s, fill), s.free[0];
            && Inv(s', loose + {p}, NULL) && SameMap(s, s') && SameContents(s, s')
            && (forall q :: UserPage(s, q) ==> UserPage(s', q) && q != p) && s'.refs == s.refs
            && UserPage(s', p) && p >= 0 && s'.words[p] == fill && s'.refs[p] == 0
            && (forall sl :: sl in AllSlots() ==> Target(s, sl) != p && Target(s', sl) == Target(s, sl))
  {
    AfterAllocWords(s, fill, loose);
    var s', p := AfterAlloc(s, fill), s.free[0];
    assert p in s.free;
    assert Refs(s, p) == {};
    NoRefs(s, p);
    forall sl | sl in AllSlots() ensures Target(s', sl) == Target(s, sl) {}
    forall q ensures Refs(s', q) == Refs(s, q) {}
    assert forall q :: q in s'.free <==> q in s.free && q != p;
    SameTargetsSameTables(s, s');
    assert FreeExact(s', loose + {p});
  }

  // ---------------------------------------------------------------- sys_page_alloc, sys_page_map, sys_page_unmap

  /** check_perm without an entry: PTE_P and PTE_U are set, and nothing outside PTE_SYSCALL. */
  predicate SyscallPerm(perm: nat) { perm < 4096 && perm / 8 % 64 == 0 && perm % 2 == 1 && User(perm) }

  lemma UserPerms()
    ensures SyscallPerm(PTE_P + PTE_U + PTE_W) && SyscallPerm(PTE_P + PTE_U)
  {
  }

  /** env_page_alloc: the new memory and whether it succeeded. */
  function AllocAt(s: Mem, e: int, v: int, perm: nat): (r: (Mem, bool))
    ensures SameFrame(s, r.0)
  {
    if !SyscallPerm(perm) then (s, false)
    else if s.free == [] || s.free[0] < 0 then (s, false)
    else Insert(AfterAlloc(s, ZeroPage()), e, s.free[0], v, perm)
  }

  /** env_page_map: -E_INVAL for an unmapped source or for write access to a read-only one. */
  function MapAt(s: Mem, src: int, sv: int, dst: int, dv: int, perm: nat): (r: (Mem, bool))
    ensures SameFrame(s, r.0)
  {
    if FlatAt(s, src, sv) == 0 || (Writable(perm) && !Writable(FlatAt(s, src, sv))) then (s, false)
    else Insert(s, dst, EntryPage(FlatAt(s, src, sv)), dv, perm)
  }

  /** A successful env_page_alloc maps a zeroed page of its own at `v`. When page_insert fails for want of a
      page table, the page allocated is lost: neither mapped nor free. */
  lemma AllocAtCorrect(s: Mem, e: nat, v: nat, perm: nat, loose: set<int>)
    requires Inv(s, loose, NULL) && e < ENVS && v < USER_PAGES && Root(s, e) != NULL
    ensures var (s', ok) := AllocAt(s, e, v, perm);
            && s'.roots == s.roots && OtherTargets(s, s', e)
            && (ok ==>
                  && SyscallPerm(perm) && s.free != [] && s.free[0] >= 0 && Inv(s', loose, NULL)
                  && FlatUpdated(s, s', e, v, Entry(s.free[0], perm))
                  && SameContents(s, s') && Managed(s, s.free[0]) && s'.words[s.free[0]] == ZeroPage()
                  && (forall sl :: sl in AllSlots() ==> Target(s, sl) != s.free[0]))
            && (!ok && (s.free == [] || !SyscallPerm(perm)) ==> s' == s)
            && (!ok && s.free != [] && SyscallPerm(perm) ==>
                  && Inv(s', loose + {s.free[0]}, NULL) && s.free[0] !in loose && SameMap(s, s')
                  && SameContents(s, s') && |s.free| == 1 && Pde(s, e, v / ENTRIES) == 0)
  {
    if s.free != [] && SyscallPerm(perm) {
      assert s.free[0] in s.free;
      AllocCorrect(s, ZeroPage(), loose);
      AfterAllocWords(s, ZeroPage(), loose);
      var s1, p := AfterAlloc(s, ZeroPage()), s.free[0];
      assert DirSlot(e, v / ENTRIES) in AllSlots();
      InsertCorrect(s1, e, p, v, perm, loose + {p});
      assert (loose + {p}) - {p} == loose;
    }
  }

  /** Counts and free list are exact after env_page_alloc exactly when it did not lose its page. */
  lemma AllocAtExactIff(s: Mem, e: nat, v: nat, perm: nat, loose: set<int>)
    requires Inv(s, loose, NULL) && e < ENVS && v < USER_PAGES && Root(s, e) != NULL
    ensures Inv(AllocAt(s, e, v, perm).0, loose, NULL) <==>
            !SyscallPerm(perm) || |s.free| != 1 || Pde(s, e, v / ENTRIES) != 0
  {
    AllocAtCorrect(s, e, v, perm, loose);
    var (s', ok) := AllocAt(s, e, v, perm);
    if SyscallPerm(perm) && |s.free| == 1 && Pde(s, e, v / ENTRIES) == 0 {
      AfterAllocWords(s, ZeroPage(), loose);
      assert DirSlot(e, v / ENTRIES) in AllSlots();
      var s1 := AfterAlloc(s, ZeroPage());
      assert s1.free == [] && Pde(s1, e, v / ENTRIES) == 0;
      assert !ok;
      assert s.free[0] !in s'.free by { assert s'.free == []; }
      assert s'.refs[s.free[0]] == 0 && Managed(s', s.free[0]);
    }
  }

  /** What the caller of sys_page_map can see to: `perm` leaves the number of the source's page as it is, and the
      page's count has room for one more reference, or the page is mapped at the target already. */
  ghost predicate MapFits(s: Mem, src: int, sv: int, dst: int, dv: int, perm: nat) {
    var p := Lookup(s, src, sv);
    0 <= p < |s.refs| ==> SamePage(p, perm) && (s.refs[p] < REF_LIMIT - 1 || Lookup(s, dst, dv) == p)
  }

  /** env_page_map for every `perm`. A failure changes nothing. A success writes the one entry, and keeps counts and
      free list exact exactly when the call fits. */
  lemma MapAtCorrect(s: Mem, src: nat, sv: nat, dst: nat, dv: nat, perm: nat, loose: set<int>)
    requires Inv(s, loose, NULL) && src < ENVS && sv < USER_PAGES && dst < ENVS && dv < USER_PAGES
    requires Root(s, dst) != NULL
    ensures var (s', ok) := MapAt(s, src, sv, dst, dv, perm);
            && s'.roots == s.roots && OtherTargets(s, s', dst)
            && (Inv(s', loose, NULL) <==> !ok || MapFits(s, src, sv, dst, dv, perm))
            && (if ok then
                  && FlatAt(s, src, sv) != 0 && UserPage(s, EntryPage(FlatAt(s, src, sv)))
                  && (Writable(perm) ==> Writable(FlatAt(s, src, sv)))
                  && SameContents(s, s')
                  && FlatUpdated(s, s', dst, dv, Entry(EntryPage(FlatAt(s, src, sv)), perm))
                else s' == s)
  {
    var w := FlatAt(s, src, sv);
    if w != 0 {
      var x, p := PageSlot(src, sv), EntryPage(w);
      assert x in AllSlots() && Target(s, x) == p;
      Referenced(s, x, loose, NULL);
      MappedIsUser(s, x, loose);
      assert loose - {p} == loose;
      InsertKeepsIff(s, dst, p, dv, perm, loose);
    }
  }

  /** Mapping page 2 once more with perm 0x1005, where bit 12 lies above the flags, writes an entry for page 3 and
      counts the reference to page 2. */
  lemma MapsAnotherPage(s: Mem, e: nat, v: nat, dv: nat, loose: set<int>)
    requires Inv(s, loose, NULL) && e < ENVS && v < USER_PAGES && dv < USER_PAGES && Lookup(s, e, v) == 2
    requires v / ENTRIES == dv / ENTRIES
    ensures var (s', ok) := MapAt(s, e, v, e, dv, 0x1005);
            ok && Lookup(s', e, dv) == 3 && !Inv(s', loose, NULL)
  {
    hide Inv;
    assert PageSlot(e, v) in AllSlots() && PageSlot(e, dv) in AllSlots() && Target(s, PageSlot(e, v)) == 2;
    assert BitOr(2, 1) == 3;
    Referenced(s, PageSlot(e, v), loose, NULL);
    MappedIsUser(s, PageSlot(e, v), loose);
    MapAtCorrect(s, e, v, e, dv, 0x1005, loose);
    InsertKeepsIff(s, e, 2, dv, 0x1005, loose);
  }

  /** A page some environment maps is never a page table or directory, and is not free. */
  lemma MappedIsUser(s: Mem, x: Slot, loose: set<int>)
    requires Inv(s, loose, NULL) && x in AllSlots() && x.PageSlot? && Target(s, x) != NULL
    ensures UserPage(s, Target(s, x))
  {
    Referenced(s, x, loose, NULL);
    assert !IsTable(s, Target(s, x)) by {
      forall sl | sl in AllSlots() && !sl.PageSlot? ensures Target(s, sl) != Target(s, x) {}
    }
  }

  // ---------------------------------------------------------------- a whole life

  datatype Op =
    | MapNew(v: nat, perm: nat)
    | MapFrom(src: nat, sv: nat, v: nat, perm: nat)
    | Unmap(v: nat)

  predicate ValidOp(op: Op) {
    match op
    case MapNew(v, _) => v < USER_PAGES
    case MapFrom(src, sv, v, _) => src < ENVS && sv < USER_PAGES && v < USER_PAGES
    case Unmap(v) => v < USER_PAGES
  }

  function Step(s: Mem, e: int, op: Op): (r: Mem)
    requires ValidOp(op)
    ensures SameFrame(s, r)
  {
    match op
    case MapNew(v, perm) => AllocAt(s, e, v, perm).0
    case MapFrom(src, sv, v, perm) => MapAt(s, src, sv, e, v, perm).0
    case Unmap(v) => Remove(s, e, v)
  }

  /** The pages a step loses. */
  function Lost(s: Mem, e: int, op: Op): set<int> {
    if op.MapNew? && SyscallPerm(op.perm) && |s.free| == 1 && Pde(s, e, op.v / ENTRIES) == 0 then {s.free[0]} else {}
  }

  function Run(s: Mem, e: int, ops: seq<Op>): (Mem, set<int>)
    requires forall i :: 0 <= i < |ops| ==> ValidOp(ops[i])
    decreases |ops|
  {
    if ops == [] then (s, {})
    else
      var (s', lost) := Run(Step(s, e, ops[0]), e, ops[1..]);
      (s', Lost(s, e, ops[0]) + lost)
  }

  /** The step fails or fits. */
  ghost predicate Fits(s: Mem, e: int, op: Op)
    requires ValidOp(op)
  {
    op.MapFrom? ==> !MapAt(s, op.src, op.sv, e, op.v, op.perm).1 || MapFits(s, op.src, op.sv, e, op.v, op.perm)
  }

  ghost predicate AllFit(s: Mem, e: int, ops: seq<Op>)
    requires forall i :: 0 <= i < |ops| ==> ValidOp(ops[i])
    decreases |ops|
  {
    ops == [] || (Fits(s, e, ops[0]) && AllFit(Step(s, e, ops[0]), e, ops[1..]))
  }

  /** A mapping call of any kind keeps counts and free list exact, up to the page it loses, exactly when it fails
      or fits; the mappings of every other environment it keeps in any case. */
  lemma StepCorrect(s: Mem, e: nat, op: Op, loose: set<int>)
    requires Inv(s, loose, NULL) && e < ENVS && Root(s, e) != NULL && ValidOp(op)
    ensures var s' := Step(s, e, op);
            && (Inv(s', loose + Lost(s, e, op), NULL) <==> Fits(s, e, op))
            && s'.roots == s.roots && OthersKept(s, s', e)
  {
    hide Inv, AllocAt, MapAt, Remove, MapFits;
    match op
    case MapNew(v, perm) =>
      AllocAtCorrect(s, e, v, perm, loose);
      AllocAtExactIff(s, e, v, perm, loose);
      assert loose + {} == loose;
    case MapFrom(src, sv, v, perm) =>
      MapAtCorrect(s, src, sv, e, v, perm, loose);
      assert loose + {} == loose;
    case Unmap(v) =>
      RemoveFlat(s, e, v, loose, NULL);
      RemoveCorrect(s, e, v, loose, NULL);
      assert loose + {} == loose;
  }

  lemma {:induction false} RunCorrect(s: Mem, e: nat, ops: seq<Op>, loose: set<int>)
    requires Inv(s, loose, NULL) && e < ENVS && Root(s, e) != NULL
    requires forall i :: 0 <= i < |ops| ==> ValidOp(ops[i])
    requires AllFit(s, e, ops)
    ensures var (s', lost) := Run(s, e, ops);
            Inv(s', loose + lost, NULL) && s'.roots == s.roots && OthersKept(s, s', e)
    decreases |ops|
  {
    if ops == [] {
      assert loose + {} == loose;
    } else {
      var s1, l1 := Step(s, e, ops[0]), Lost(s, e, ops[0]);
      StepCorrect(s, e, ops[0], loose);
      RunCorrect(s1, e, ops[1..], loose + l1);
      assert (loose + l1) + Run(s1, e, ops[1..]).1 == loose + (l1 + Run(s1, e, ops[1..]).1);
    }
  }

  /** Two exact memories with the same references have the same counts and, lost pages apart, the same free
      pages. */
  lemma SameReferences(s: Mem, s': Mem, loose: set<int>, lost: set<int>)
    requires Inv(s, loose, NULL) && Inv(s', loose + lost, NULL) && SameFrame(s, s')
    requires forall sl :: sl in AllSlots() ==> Target(s', sl) == Target(s, sl)
    ensures forall p :: Managed(s, p) ==> s'.refs[p] == s.refs[p]
    ensures forall p :: p in s'.free <==> p in s.free && p !in lost
  {
    forall p | Managed(s, p) ensures s'.refs[p] == s.refs[p] {
      assert Refs(s', p) == Refs(s, p);
    }
  }

  lemma NoTargets(s: Mem, e: int)
    requires Root(s, e) == NULL
    ensures forall sl: Slot :: sl.e == e ==> Target(s, sl) == NULL
  {
    NoSpace(s, e);
    forall sl: Slot | sl.e == e ensures Target(s, sl) == NULL {
      match sl
      case RootSlot(_) =>
      case DirSlot(_, d) => assert Pde(s, e, d) == 0;
      case PageSlot(_, v) => assert FlatAt(s, e, v) == 0;
    }
  }

  lemma {:induction false} RunFrame(s: Mem, e: nat, ops: seq<Op>)
    requires forall i :: 0 <= i < |ops| ==> ValidOp(ops[i])
    ensures SameFrame(s, Run(s, e, ops).0)
    decreases |ops|
  {
    if ops != [] { RunFrame(Step(s, e, ops[0]), e, ops[1..]); }
  }

  /** Address-space round trip. Set up an environment, run any mapping calls in it, free it: every other
      environment has its mappings, every count is what it was, and the free pages are those of before
      without the ones env_page_alloc lost on the way. */
  lemma LifeRoundTrip(s: Mem, e: nat, ops: seq<Op>, loose: set<int>)
    requires Inv(s, loose, NULL) && e < ENVS && Root(s, e) == NULL && SetupVm(s, e).1
    requires forall i :: 0 <= i < |ops| ==> ValidOp(ops[i])
    requires AllFit(SetupVm(s, e).0, e, ops)
    ensures var (s2, lost) := Run(SetupVm(s, e).0, e, ops);
            var s' := FreeEnv(s2, e);
            && Inv(s', loose + lost, NULL) && OthersKept(s, s', e) && |s'.refs| == |s.refs|
            && (forall p :: Managed(s, p) ==> s'.refs[p] == s.refs[p])
            && (forall p :: p in s'.free <==> p in s.free && p !in lost)
  {
    hide Inv, SetupVm, FreeEnv, Run, AllFit, FlatAt;
    SetupVmCorrect(s, e, loose);
    var s1 := SetupVm(s, e).0;
    RunCorrect(s1, e, ops, loose);
    var (s2, lost) := Run(s1, e, ops);
    FreeEnvCorrect(s2, e, loose + lost);
    var s' := FreeEnv(s2, e);
    RunFrame(s1, e, ops);
    NoTargets(s, e);
    NoTargets(s', e);
    forall sl | sl in AllSlots() ensures Target(s', sl) == Target(s, sl) {}
    SameReferences(s, s', loose, lost);
  }
}
