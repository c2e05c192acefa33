/** lib/fork.c as it runs: loops over page numbers that make the kernel change its tables in place. */
module ForkCode {
  import opened IntrusiveList
  import opened PageModel
  import opened PageProofs
  import opened AddressSpace
  import opened Lifetime
  import opened CowFork
  import opened CowRefinement
  import opened Pmap

  /** memmove of page `from` onto page `to`, both in the current address space. */
  method MovePage(m: Memory, e: nat, from: nat, to: nat, ghost loose: set<int>)
    requires m.Valid(loose, NULL) && Core(m.Snap(), loose) && e < ENVS && from < USER_PAGES && to < USER_PAGES
    requires m.roots[e] != NULL && ViewAt(m.Snap(), e, from).Page? && Writable(FlatAt(m.Snap(), e, to))
    modifies m, m.link, m.refs, m.words
    ensures m.Snap() == CopyPage(old(m.Snap()), e, from, to) && m.Valid(loose, NULL)
  {
    hide Inv, WritersAlone, EntriesUser;
    ghost var s := m.Snap();
    assert PageSlot(e, from) in AllSlots() && PageSlot(e, to) in AllSlots();
    MappedView(s, e, from, loose);
    MappedPage(s, e, from, loose);
    MappedPage(s, e, to, loose);
    CopyStep(s, e, from, to, loose);
    var p, _ := m.PageLookup(e, from, loose, NULL);
    var q, _ := m.PageLookup(e, to, loose, NULL);
    m.words[q] := m.words[p];
    assert m.Snap().words == CopyPage(s, e, from, to).words;
  }

  lemma MappedPage(s: Mem, e: nat, v: nat, loose: set<int>)
    requires Inv(s, loose, NULL) && PageSlot(e, v) in AllSlots() && FlatAt(s, e, v) != 0
    ensures IsPage(s, Lookup(s, e, v))
  {
    MappedIsUser(s, PageSlot(e, v), loose);
  }

  /** duppage; false stands for its panics. */
  method DuplicatePage(m: Memory, parent: nat, child: nat, v: nat, ghost loose: set<int>) returns (ok: bool)
    requires m.Valid(loose, NULL) && Core(m.Snap(), loose) && Room(m.Snap())
    requires parent < ENVS && child < ENVS && parent != child && v < USER_PAGES
    requires m.roots[parent] != NULL && m.roots[child] != NULL && FlatAt(m.Snap(), parent, v) != 0
    modifies m, m.link, m.refs, m.words
    ensures m.Snap() == DupPage(old(m.Snap()), parent, child, v).0 && ok == DupPage(old(m.Snap()), parent, child, v).1
    ensures m.Valid(loose, NULL)
  {
    ghost var s := m.Snap();
    assert Root(s, parent) == m.roots[parent] && Root(s, child) == m.roots[child];
    hide Inv, MapAt, WritersAlone, EntriesUser;
    assert PageSlot(parent, v) in AllSlots() && PageSlot(child, v) in AllSlots();
    MappedInRange(s, parent, v, loose);
    var p, table := m.PageLookup(parent, v, loose, NULL);
    var pte := m.words[table][v % ENTRIES];
    if Writable(pte) || CopyOnWrite(pte) {
      ok := m.EnvPageMap(parent, v, child, v, SHARED, loose);
      if ok {
        MapStep(s, parent, v, child, v, SHARED, loose);
        DupAgain(s, m.Snap(), parent, child, v, Entry(EntryPage(pte), SHARED), loose);
        ok := m.EnvPageMap(parent, v, parent, v, SHARED, loose);
      }
    } else {
      ok := m.EnvPageMap(parent, v, child, v, READ_ONLY, loose);
    }
  }

  /** The loop of fork over the pages below UTOP. */
  method ForkPages(m: Memory, parent: nat, child: nat, ghost loose: set<int>) returns (ok: bool)
    requires m.Valid(loose, NULL) && Core(m.Snap(), loose) && LoopRoom(m.Snap(), parent, child, USER_PAGES)
    requires parent < ENVS && child < ENVS && parent != child && m.roots[parent] != NULL && m.roots[child] != NULL
    requires Blank(m.Snap(), child)
    modifies m, m.link, m.refs, m.words
    ensures m.Snap() == ForkLoop(old(m.Snap()), parent, child, USER_PAGES).0
    ensures ok == ForkLoop(old(m.Snap()), parent, child, USER_PAGES).1 && m.Valid(loose, NULL)
  {
    hide Inv, DupPage, WritersAlone, EntriesUser, Copied, ViewAt, ForkLoop, LoopRoom, Core, Blank;
    ghost var s := m.Snap();
    RootsOf(s, loose);
    assert Root(s, parent) == m.roots[parent] && Root(s, child) == m.roots[child];
    ForkLoopStarts(s, parent, child);
    var v := 0;
    ok := true;
    while v < USER_PAGES && ok
      invariant v <= USER_PAGES && m.Valid(loose, NULL) && m.roots[..] == s.roots
      invariant ForkLoop(s, parent, child, v) == (m.Snap(), ok)
    {
      ok := ForkPage(m, parent, child, v, s, loose);
      v := v + 1;
    }
    if !ok { ForkLoopStops(s, parent, child, v, USER_PAGES); }
  }

  lemma RootsOf(s: Mem, loose: set<int>)
    requires Inv(s, loose, NULL)
    ensures |s.roots| == ENVS
  {
  }

  lemma ForkLoopStarts(s: Mem, parent: int, child: int)
    ensures ForkLoop(s, parent, child, 0) == (s, true)
  {
  }

  lemma {:induction false} ForkLoopStops(s: Mem, parent: int, child: int, i: nat, n: nat)
    requires i <= n && !ForkLoop(s, parent, child, i).1
    ensures ForkLoop(s, parent, child, n) == ForkLoop(s, parent, child, i)
  {
    if i < n { ForkLoopStops(s, parent, child, i, n - 1); }
  }

  /** The body of that loop. */
  method ForkPage(m: Memory, parent: nat, child: nat, v: nat, ghost s: Mem, ghost loose: set<int>) returns (ok: bool)
    requires m.Valid(loose, NULL) && Core(s, loose) && LoopRoom(s, parent, child, USER_PAGES) && v < USER_PAGES
    requires parent < ENVS && child < ENVS && parent != child && m.roots[parent] != NULL && m.roots[child] != NULL
    requires Root(s, parent) != NULL && Root(s, child) != NULL
    requires Blank(s, child)
    requires ForkLoop(s, parent, child, v) == (m.Snap(), true)
    modifies m, m.link, m.refs, m.words
    ensures ForkLoop(s, parent, child, v + 1) == (m.Snap(), ok)
    ensures m.Valid(loose, NULL) && m.roots[..] == old(m.roots[..])
  {
    hide Inv, DupPage, WritersAlone, EntriesUser, Copied, ViewAt, FlatAt, Blank;
    ForkLoopCorrect(s, parent, child, v, loose);
    assert PageSlot(parent, v) in AllSlots();
    LoopTests(m.Snap(), parent, v, loose);
    if v == EXCEPTION_STACK { return true; }
    var p, table := m.PageLookup(parent, v, loose, NULL);
    if p == NULL { return true; }
    ok := DuplicatePage(m, parent, child, v, loose);
  }

  /** fork; false stands for an error or a panic. A page env_page_alloc lost stays in `lost`. */
  method Fork(m: Memory, parent: nat, child: nat, ghost loose: set<int>) returns (ok: bool, ghost lost: set<int>)
    requires m.Valid(loose, NULL) && CowInv(m.Snap(), loose) && ForkRoom(m.Snap(), parent, child)
    requires parent < ENVS && child < ENVS && parent != child && m.roots[parent] != NULL && m.roots[child] == NULL
    modifies m, m.link, m.refs, m.words, m.roots
    ensures m.Snap() == ForkEnv(old(m.Snap()), parent, child).0 && ok == ForkEnv(old(m.Snap()), parent, child).1
    ensures m.Valid(loose + lost, NULL) && (ok ==> lost == {} && CowInv(m.Snap(), loose))
  {
    hide Inv, SetupVm, ForkLoop, LoopRoom, AllocAt, FlatAt, ViewAt, CowInv, Blank, SyscallPerm;
    ghost var s := m.Snap();
    RootsOf(s, loose);
    UserPerms();
    assert Root(s, parent) == m.roots[parent] && Root(s, child) == NULL && loose + {} == loose;
    lost := {};
    ok := m.EnvSetupVm(child, loose);
    if ok {
      ForkSetup(s, parent, child, loose);
      ok := ForkPages(m, parent, child, loose);
      if ok {
        ghost var free := m.free;
        ok := m.EnvPageAlloc(child, EXCEPTION_STACK, READ_WRITE, loose);
        if ok {
          ForkCorrect(s, parent, child, loose);
        } else if free != [] {
          lost := {free[0]};
        }
      }
    }
  }

  lemma ForkSetup(s: Mem, parent: nat, child: nat, loose: set<int>)
    requires CowInv(s, loose) && parent < ENVS && child < ENVS && parent != child && SetupVm(s, child).1
    requires Root(s, parent) != NULL && Root(s, child) == NULL
    ensures var s' := SetupVm(s, child).0;
            && Core(s', loose) && Root(s', parent) != NULL && Root(s', child) != NULL
            && Blank(s', child)
  {
    hide SetupVm;
    SetupViews(s, child, loose);
  }

  /** The calls of pgfault once PFTEMP has its page. */
  method CopyAndRemapPage(m: Memory, e: nat, v: nat, ghost loose: set<int>) returns (ok: bool)
    requires m.Valid(loose, NULL) && Core(m.Snap(), loose) && PageSlot(e, v) in AllSlots() && v != PFTEMP
    requires m.roots[e] != NULL && ViewAt(m.Snap(), e, v).Page? && Writable(FlatAt(m.Snap(), e, PFTEMP))
    modifies m, m.link, m.refs, m.words
    ensures m.Snap() == CopyAndRemap(old(m.Snap()), e, v).0 && ok == CopyAndRemap(old(m.Snap()), e, v).1
    ensures m.Valid(loose, NULL)
  {
    ghost var s := m.Snap();
    assert PageSlot(e, PFTEMP) in AllSlots();
    hide Inv, MapAt, CopyPage, Remove, FlatAt, ViewAt, WritersAlone, EntriesUser;
    MovePage(m, e, v, PFTEMP, loose);
    CopyStep(s, e, v, PFTEMP, loose);
    WritableAlone(m.Snap(), e, PFTEMP, loose);
    ok := m.EnvPageMap(e, PFTEMP, e, v, READ_WRITE, loose);
    if ok { m.PageRemove(e, PFTEMP, loose, NULL); }
  }

  lemma FaultStart(s: Mem, e: nat, v: nat, loose: set<int>)
    requires CowInv(s, loose) && PageSlot(e, v) in AllSlots() && v != PFTEMP && Root(s, e) != NULL
    requires ViewAt(s, e, v).Page? && AllocAt(s, e, PFTEMP, READ_WRITE).1
    ensures var s' := AllocAt(s, e, PFTEMP, READ_WRITE).0;
            Core(s', loose) && ViewAt(s', e, v).Page? && Writable(FlatAt(s', e, PFTEMP)) && s'.roots == s.roots
  {
    hide AllocAt, Inv;
    assert PageSlot(e, PFTEMP) in AllSlots();
    AllocStep(s, e, PFTEMP, READ_WRITE, loose);
  }

  /** pgfault on a page the environment shares; false stands for a panic. */
  method HandleFault(m: Memory, e: nat, v: nat, ghost loose: set<int>) returns (ok: bool, ghost lost: set<int>)
    requires m.Valid(loose, NULL) && CowInv(m.Snap(), loose) && PageSlot(e, v) in AllSlots() && v != PFTEMP
    requires m.roots[e] != NULL && ViewAt(m.Snap(), e, v).Page?
    modifies m, m.link, m.refs, m.words
    ensures m.Snap() == PageFault(old(m.Snap()), e, v).0 && ok == PageFault(old(m.Snap()), e, v).1
    ensures m.Valid(loose + lost, NULL) && (ok ==> lost == {} && CowInv(m.Snap(), loose))
  {
    hide Inv, AllocAt, CopyAndRemap, FlatAt, ViewAt, CowInv, Core, SyscallPerm;
    ghost var s := m.Snap();
    RootsOf(s, loose);
    UserPerms();
    assert Root(s, e) == m.roots[e] && loose + {} == loose && PageSlot(e, PFTEMP) in AllSlots();
    lost := {};
    ok := m.EnvPageAlloc(e, PFTEMP, READ_WRITE, loose);
    if ok {
      FaultStart(s, e, v, loose);
      ok := CopyAndRemapPage(m, e, v, loose);
      if ok { PageFaultCorrect(s, e, v, loose); }
    } else if s.free != [] {
      lost := {s.free[0]};
    }
  }
}
