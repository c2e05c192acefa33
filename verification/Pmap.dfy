/** The page allocator and the page tables as the kernel runs them: arrays updated in place and a free
    list threaded through pp_link. Every method is proved to compute its function of `PageModel`. */
module Pmap {
  import opened IntrusiveList
  import opened PageModel
  import opened PageProofs
  import opened AddressSpace
  import opened Lifetime

  const MPENTRY_PAGE := 7      // PGNUM(MPENTRY_PADDR)
  const IO_HOLE_PAGE := 160    // PGNUM(IOPHYSMEM)
  const EXTENDED_PAGE := 256   // PGNUM(EXTPHYSMEM)

  /** The pages page_init keeps: page 0, the AP boot code, the I/O hole, and the kernel with its boot-time
      data, which end at `kernEnd`. */
  predicate KeptAtBoot(i: int, kernEnd: nat) {
    i == 0 || i == MPENTRY_PAGE || IO_HOLE_PAGE <= i < EXTENDED_PAGE || EXTENDED_PAGE <= i < kernEnd
  }

  class Memory {
    const link: array<int>       // pp_link
    const refs: array<nat>       // pp_ref
    const words: array<seq<nat>> // physical memory, by page
    const roots: array<int>      // env_pgdir of each slot
    var head: int                // page_free_list
    const kern: seq<nat>         // kern_pgdir
    ghost const reserved: set<int>
    ghost var free: seq<int>

    ghost predicate Linked()
      reads this, link
    {
      && link.Length == refs.Length == words.Length && link != roots
      && IsChain(link[..], head, free)
      && (forall p :: 0 <= p < link.Length && p !in free ==> link[p] == NULL)
    }

    ghost function Snap(): Mem
      reads this, refs, words, roots
    {
      Mem(free, refs[..], words[..], roots[..], reserved, kern)
    }

    ghost predicate Valid(loose: set<int>, held: int)
      reads this, link, refs, words, roots
    {
      Linked() && Inv(Snap(), loose, held)
    }

    ghost predicate Zeroed()
      reads this, link, refs, words, roots
    {
      && Linked() && Shape(Snap()) && head == NULL && free == []
      && (forall p :: 0 <= p < refs.Length ==> refs[p] == 0)
      && (forall e :: 0 <= e < roots.Length ==> roots[e] == NULL)
    }

    /** The zeroed pages[] and envs[] of mem_init. */
    constructor (npages: nat, kernEnd: nat, kernPgdir: seq<nat>)
      requires |kernPgdir| == ENTRIES && forall d :: 0 <= d < USER_DIRS ==> kernPgdir[d] == 0
      ensures Zeroed() && fresh(link) && fresh(refs) && fresh(words) && fresh(roots)
      ensures link.Length == npages && kern == kernPgdir
      ensures reserved == set p: int | 0 <= p < npages && KeptAtBoot(p, kernEnd)
    {
      link := new int[npages](_ => NULL);
      refs := new nat[npages](_ => 0);
      words := new seq<nat>[npages](_ => ZeroPage());
      roots := new int[ENVS](_ => NULL);
      kern := kernPgdir;
      head := NULL;
      reserved := set p: int | 0 <= p < npages && KeptAtBoot(p, kernEnd);
      free := [];
    }

    /** page_init: the allocator starts with every page that boot does not keep, and only those. */
    method PageInit(kernEnd: nat)
      requires Zeroed() && reserved == set p: int | 0 <= p < link.Length && KeptAtBoot(p, kernEnd)
      modifies this, link, refs
      ensures Valid({}, NULL)
      ensures forall p :: p in free <==> 0 <= p < link.Length && !KeptAtBoot(p, kernEnd)
      ensures words[..] == old(words[..]) && roots[..] == old(roots[..])
    {
      var i := 0;
      while i < link.Length
        invariant i <= link.Length && Linked()
        invariant forall p :: p in free <==> 0 <= p < i && !KeptAtBoot(p, kernEnd)
        invariant forall p :: 0 <= p < refs.Length ==> refs[p] == 0
      {
        ghost var before := link[..];
        link[i] := NULL;
        assert link[..] == before;
        if !KeptAtBoot(i, kernEnd) {
          link[i] := head;
          refs[i] := 0;
          head := i;
          ChainFrame(before, link[..], link[i], free);
          free := [i] + free;
        }
        i := i + 1;
      }
      ChainIsDistinct(link[..], head, free);
      NothingMapped(Snap());
    }

    /** page_alloc; `NULL` when no page is free. */
    method PageAlloc(zero: bool) returns (p: int)
      requires Linked()
      requires forall q :: q in free ==> 0 <= q < words.Length
      modifies this, link, words
      ensures Linked()
      ensures old(free) == [] ==> p == NULL && Snap() == old(Snap())
      ensures old(free) != [] ==>
                p == old(free)[0] && Snap() == AfterAlloc(old(Snap()), if zero then ZeroPage() else old(words[p]))
    {
      if head == NULL { return NULL; }
      p := head;
      assert p == free[0] && p in free;
      ghost var before := link[..];
      ChainIsDistinct(before, head, free);
      head := link[p];
      link[p] := NULL;
      free := free[1..];
      assert p !in free;
      ChainFrame(before, link[..], head, free);
      if zero { words[p] := ZeroPage(); }
      assert words[..] == old(words[..])[p := words[p]];
    }

    /** page_free; false stands for one of its two panics. The second one misses the last page of the list, whose
        link is NULL: freed again, it goes in front and the list has no end any more. */
    method PageFree(p: nat) returns (ok: bool)
      requires Linked() && p < refs.Length
      modifies this, link
      ensures ok == (refs[p] == 0 && old(link[p]) == NULL)
      ensures !ok ==> Linked() && free == old(free) && head == old(head) && link[..] == old(link[..])
      ensures ok ==> head == p && link[..] == old(link[..])[p := old(head)]
      ensures ok && p !in old(free) ==> Linked() && free == [p] + old(free)
      ensures ok && p in old(free) ==> forall list :: !IsChain(link[..], head, list)
    {
      if refs[p] != 0 { return false; }
      if link[p] != NULL { return false; }
      ghost var before, first := link[..], head;
      link[p] := head;
      head := p;
      ok := true;
      if p in free {
        LastOf(before, first, free, p);
        forall list ensures !IsChain(link[..], head, list) { TailInFrontAgain(before, first, free, list); }
      } else {
        ChainFrame(before, link[..], link[p], free);
        free := [p] + free;
        assert free[1..] == old(free);
      }
    }

    /** page_decref. */
    method PageDecref(p: nat)
      requires Linked() && p < refs.Length && p !in free
      modifies this, link, refs
      ensures Linked() && Snap() == Decref(old(Snap()), p)
    {
      refs[p] := Dec16(refs[p]);
      if refs[p] == 0 {
        var ok := PageFree(p);
        assert ok;
      }
      assert refs[..] == old(refs[..])[p := refs[p]];
    }

    /** pgdir_walk: the page table for page number `v`, NULL if there is none. */
    method PgdirWalk(e: nat, v: nat, create: bool, ghost loose: set<int>, ghost held: int) returns (table: int)
      requires Valid(loose, held) && (create ==> held == NULL)
      requires e < ENVS && v < USER_PAGES && roots[e] != NULL
      modifies this, link, refs, words
      ensures Valid(loose, held)
      ensures Snap() == if create then EnsureTable(old(Snap()), e, v / ENTRIES) else old(Snap())
      ensures table == EntryTarget(Pde(Snap(), e, v / ENTRIES))
      ensures table != NULL ==> IsPage(Snap(), table)
    {
      ghost var s := Snap();
      var d, r := v / ENTRIES, roots[e];
      assert RootSlot(e) in AllSlots() && Target(s, RootSlot(e)) == r && DirSlot(e, d) in AllSlots();
      Referenced(s, RootSlot(e), loose, held);
      if words[r][d] == 0 && create {
        EnsureTableCorrect(s, e, d, loose);
        var page := PageAlloc(true);
        if page != NULL {
          assert page in s.free;
          refs[page] := Inc16(refs[page]);
          words[r] := words[r][d := Entry(page, PTE_W + PTE_U)];
          assert Snap().words == EnsureTable(s, e, d).words;
          assert Snap() == EnsureTable(s, e, d);
        }
      }
      ghost var s' := Snap();
      Referenced(s', RootSlot(e), loose, held);
      if words[r][d] != 0 {
        assert Target(s', DirSlot(e, d)) == EntryPage(words[r][d]);
        Referenced(s', DirSlot(e, d), loose, held);
        return EntryPage(words[r][d]);
      }
      return NULL;
    }

    /** page_lookup: the page mapped at `v` and the table holding its entry, NULL if none. */
    method PageLookup(e: nat, v: nat, ghost loose: set<int>, ghost held: int) returns (p: int, table: int)
      requires Valid(loose, held) && e < ENVS && v < USER_PAGES && roots[e] != NULL
      modifies this, link, refs, words
      ensures Valid(loose, held) && Snap() == old(Snap())
      ensures p == Lookup(Snap(), e, v)
      ensures p != NULL ==> table == EntryPage(Pde(Snap(), e, v / ENTRIES)) && IsPage(Snap(), table) && p >= 0
      ensures p != NULL ==> words[table][v % ENTRIES] == FlatAt(Snap(), e, v)
    {
      table := PgdirWalk(e, v, false, loose, held);
      if table == NULL || words[table][v % ENTRIES] == 0 { return NULL, NULL; }
      p := EntryPage(words[table][v % ENTRIES]);
    }

    /** page_remove. */
    method PageRemove(e: nat, v: nat, ghost loose: set<int>, ghost held: int)
      requires Valid(loose, held) && e < ENVS && v < USER_PAGES && roots[e] != NULL
      modifies this, link, refs, words
      ensures Valid(loose, held) && Snap() == Remove(old(Snap()), e, v)
    {
      ghost var s := Snap();
      var p, table := PageLookup(e, v, loose, held);
      RemoveCorrect(s, e, v, loose, held);
      if p == NULL { return; }
      assert PageSlot(e, v) in AllSlots() && Target(s, PageSlot(e, v)) == p;
      Referenced(s, PageSlot(e, v), loose, held);
      PageDecref(p);
      WriteEntry(table, v % ENTRIES, 0);
    }

    /** `*pte = entry`. */
    method WriteEntry(table: nat, i: nat, entry: nat)
      requires Linked() && IsPage(Snap(), table) && i < ENTRIES
      modifies words
      ensures Linked() && Snap() == SetWord(old(Snap()), table, i, entry)
    {
      words[table] := words[table][i := entry];
      assert Snap().words == SetWord(old(Snap()), table, i, entry).words;
    }

    /** page_insert for every `perm`; false stands for -E_NO_MEM. */
    method PageInsert(e: nat, p: nat, v: nat, perm: nat, ghost loose: set<int>) returns (ok: bool)
      requires Valid(loose, NULL) && e < ENVS && v < USER_PAGES && roots[e] != NULL
      requires UserPage(Snap(), p) && p < refs.Length && refs[p] < REF_LIMIT - 1
      modifies this, link, refs, words
      ensures Snap() == Insert(old(Snap()), e, p, v, perm).0 && ok == Insert(old(Snap()), e, p, v, perm).1
      ensures Linked() && (!ok || SamePage(p, perm) ==> Valid(if ok then loose - {p} else loose, NULL))
    {
      UserPageInRange(Snap(), p, loose);
      assert Root(Snap(), e) == roots[e];
      hide Inv, EnsureTable, Remove, SetWord, UserPage, SameContents, FlatUpdated, Pde, BitOr;
      if SamePage(p, perm) { InsertCorrect(Snap(), e, p, v, perm, loose); }
      EnsureTableCorrect(Snap(), e, v / ENTRIES, loose);
      var table := PgdirWalk(e, v, true, loose, NULL);
      if table == NULL { return false; }
      IncrefCorrect(Snap(), p, loose);
      ghost var s1 := Snap();
      refs[p] := Inc16(refs[p]);
      assert Snap() == Incref(s1, p);
      PageRemove(e, v, loose - {p}, p);
      PageSize(Snap(), table, loose - {p}, p);
      WriteEntry(table, v % ENTRIES, Entry(p, perm));
      ok := true;
    }

    // -------------------------------------------------------------- kern/env.c and kern/syscall.c

    /** env_setup_vm; false stands for -E_NO_MEM. */
    method EnvSetupVm(e: nat, ghost loose: set<int>) returns (ok: bool)
      requires Valid(loose, NULL) && e < ENVS && roots[e] == NULL
      modifies this, link, refs, words, roots
      ensures Snap() == SetupVm(old(Snap()), e).0 && ok == SetupVm(old(Snap()), e).1
      ensures Valid(loose, NULL) && (ok ==> roots[e] != NULL)
    {
      ghost var s := Snap();
      SetupVmCorrect(s, e, loose);
      assert forall q :: q in free ==> Managed(s, q);
      var p := PageAlloc(true);
      if p == NULL { return false; }
      assert p in s.free;
      roots[e] := p;
      words[p] := kern[UVPT_DIR := Entry(p, PTE_U)];
      refs[p] := Inc16(refs[p]);
      assert Snap() == SetupVm(s, e).0;
      ok := true;
    }

    /** env_page_alloc; false stands for a negative error. */
    method EnvPageAlloc(e: nat, v: nat, perm: nat, ghost loose: set<int>) returns (ok: bool)
      requires Valid(loose, NULL) && e < ENVS && v < USER_PAGES && roots[e] != NULL
      modifies this, link, refs, words
      ensures Snap() == AllocAt(old(Snap()), e, v, perm).0 && ok == AllocAt(old(Snap()), e, v, perm).1
      ensures Valid(if ok || old(free) == [] || !SyscallPerm(perm) then loose else loose + {old(free)[0]}, NULL)
    {
      ghost var s := Snap();
      AllocAtCorrect(s, e, v, perm, loose);
      if !SyscallPerm(perm) { return false; }
      assert forall q :: q in free ==> Managed(s, q);
      var p := PageAlloc(true);
      if p == NULL { return false; }
      assert p in s.free;
      AllocCorrect(s, ZeroPage(), loose);
      assert SamePage(p, perm);
      ok := PageInsert(e, p, v, perm, loose + {p});
    }

    /** env_page_map for every `perm`; false stands for a negative error. */
    method EnvPageMap(src: nat, sv: nat, dst: nat, dv: nat, perm: nat, ghost loose: set<int>) returns (ok: bool)
      requires Valid(loose, NULL) && src < ENVS && sv < USER_PAGES && dst < ENVS && dv < USER_PAGES
      requires roots[src] != NULL && roots[dst] != NULL
      requires FlatAt(Snap(), src, sv) != 0 ==> EntryPage(FlatAt(Snap(), src, sv)) < refs.Length ==>
                 refs[EntryPage(FlatAt(Snap(), src, sv))] < REF_LIMIT - 1
      modifies this, link, refs, words
      ensures Snap() == MapAt(old(Snap()), src, sv, dst, dv, perm).0
      ensures ok == MapAt(old(Snap()), src, sv, dst, dv, perm).1 && Linked()
      ensures Valid(loose, NULL) <==> !ok || old(MapFits(Snap(), src, sv, dst, dv, perm))
    {
      ghost var s := Snap();
      assert PageSlot(src, sv) in AllSlots();
      hide Inv, Insert, FlatAt, BitOr;
      MapAtCorrect(s, src, sv, dst, dv, perm, loose);
      var p, table := PageLookup(src, sv, loose, NULL);
      if p == NULL { return false; }
      if Writable(perm) && !Writable(words[table][sv % ENTRIES]) { return false; }
      MappedIsUser(s, PageSlot(src, sv), loose);
      Referenced(s, PageSlot(src, sv), loose, NULL);
      assert loose - {p} == loose;
      ok := PageInsert(dst, p, dv, perm, loose);
    }

    /** env_free, the memory part. */
    method EnvFree(e: nat, ghost loose: set<int>)
      requires Valid(loose, NULL) && e < ENVS && roots[e] != NULL
      modifies this, link, refs, words, roots
      ensures Snap() == FreeEnv(old(Snap()), e) && Valid(loose, NULL) && roots[e] == NULL
    {
      FreeEnvCorrect(Snap(), e, loose);
      FreeDirectories(e, loose);
      var p := roots[e];
      assert RootSlot(e) in AllSlots() && Target(Snap(), RootSlot(e)) == p;
      Referenced(Snap(), RootSlot(e), loose, NULL);
      ghost var s1 := Snap();
      roots[e] := NULL;
      assert Snap() == s1.(roots := s1.roots[e := NULL]);
      PageDecref(p);
    }

    /** env_free's outer loop. */
    method FreeDirectories(e: nat, ghost loose: set<int>)
      requires Valid(loose, NULL) && e < ENVS && roots[e] != NULL
      modifies this, link, refs, words
      ensures Snap() == FreeDirs(old(Snap()), e, USER_DIRS) && Valid(loose, NULL)
    {
      var d := 0;
      while d < USER_DIRS
        invariant d <= USER_DIRS && Valid(loose, NULL) && Snap() == FreeDirs(old(Snap()), e, d)
      {
        FreeDirectoryEntry(e, d, loose);
        d := d + 1;
      }
    }

    /** The body of env_free's outer loop. */
    method FreeDirectoryEntry(e: nat, d: nat, ghost loose: set<int>)
      requires Valid(loose, NULL) && e < ENVS && roots[e] != NULL && d < USER_DIRS
      modifies this, link, refs, words
      ensures Snap() == if Present(Pde(old(Snap()), e, d)) then
                          Decref(SetWord(FreeTable(old(Snap()), e, d * ENTRIES, ENTRIES), Root(old(Snap()), e), d, 0),
                                 EntryPage(Pde(old(Snap()), e, d)))
                        else old(Snap())
      ensures Valid(loose, NULL)
    {
      ghost var s := Snap();
      var r := roots[e];
      assert RootSlot(e) in AllSlots() && Target(s, RootSlot(e)) == r && DirSlot(e, d) in AllSlots();
      Referenced(s, RootSlot(e), loose, NULL);
      if !Present(words[r][d]) { return; }
      FreeDirStep(s, e, d, loose);
      var pt := EntryPage(words[r][d]);
      FreePages(e, d, pt, loose);
      ghost var s1 := Snap();
      FreeTableCorrect(s, e, d * ENTRIES, ENTRIES, loose);
      assert Target(s1, DirSlot(e, d)) == pt;
      Referenced(s1, DirSlot(e, d), loose, NULL);
      WriteEntry(r, d, 0);
      PageDecref(pt);
    }

    /** env_free's inner loop. */
    method FreePages(e: nat, d: nat, pt: nat, ghost loose: set<int>)
      requires Valid(loose, NULL) && e < ENVS && roots[e] != NULL && d < USER_DIRS
      requires Pde(Snap(), e, d) != 0 && pt == EntryPage(Pde(Snap(), e, d))
      modifies this, link, refs, words
      ensures Snap() == FreeTable(old(Snap()), e, d * ENTRIES, ENTRIES) && Valid(loose, NULL)
    {
      hide Inv, Remove, Shrunk, Cleared, FlatAt;
      ghost var s := Snap();
      var t := 0;
      while t < ENTRIES
        invariant t <= ENTRIES && Valid(loose, NULL) && Snap() == FreeTable(s, e, d * ENTRIES, t)
        invariant Pde(Snap(), e, d) == Pde(s, e, d) && roots[..] == s.roots
      {
        FreeTableCorrect(s, e, d * ENTRIES, t + 1, loose);
        TableEntry(Snap(), e, d, t, loose);
        if Present(words[pt][t]) {
          PageRemove(e, d * ENTRIES + t, loose, NULL);
        }
        t := t + 1;
      }
    }
  }

  /** A page of the list with link NULL is the last one. */
  lemma LastOf(links: seq<int>, head: int, list: seq<int>, p: int)
    requires IsChain(links, head, list) && p in list && 0 <= p < |links| && links[p] == NULL
    ensures list[|list| - 1] == p
  {
    var i :| 0 <= i < |list| && list[i] == p;
    ChainSuffix(links, head, list, i);
  }

  lemma PageSize(s: Mem, p: int, loose: set<int>, held: int)
    requires Inv(s, loose, held) && 0 <= p < |s.words|
    ensures IsPage(s, p)
  {
  }

  lemma UserPageInRange(s: Mem, p: int, loose: set<int>)
    requires Inv(s, loose, NULL) && UserPage(s, p)
    ensures 0 <= p < |s.refs|
  {
  }

  /** Entry `t` of page table `d` is the entry of page number `d * 1024 + t`. */
  lemma TableEntry(s: Mem, e: nat, d: nat, t: nat, loose: set<int>)
    requires Inv(s, loose, NULL) && e < ENVS && d < USER_DIRS && t < ENTRIES && Pde(s, e, d) != 0
    ensures d * ENTRIES + t < USER_PAGES && IsPage(s, EntryPage(Pde(s, e, d)))
    ensures s.words[EntryPage(Pde(s, e, d))][t] == FlatAt(s, e, d * ENTRIES + t)
  {
    assert DirSlot(e, d) in AllSlots() && Target(s, DirSlot(e, d)) == EntryPage(Pde(s, e, d));
    Referenced(s, DirSlot(e, d), loose, NULL);
    assert (d * ENTRIES + t) / ENTRIES == d && (d * ENTRIES + t) % ENTRIES == t;
  }

  /** A machine that has mapped nothing yet satisfies the invariant. */
  lemma NothingMapped(s: Mem)
    requires Shape(s) && (forall e :: 0 <= e < ENVS ==> s.roots[e] == NULL)
    requires forall p :: 0 <= p < |s.refs| ==> s.refs[p] == 0
    requires Distinct(s.free) && forall p :: p in s.free <==> Managed(s, p)
    ensures Inv(s, {}, NULL)
  {
    forall e ensures Root(s, e) == NULL {}
    forall sl: Slot ensures Target(s, sl) == NULL { NoTargets(s, sl.e); }
    forall p | Managed(s, p) ensures Refs(s, p) == {} {}
    forall e, d ensures Pde(s, e, d) == 0 { NoSpace(s, e); }
    forall e, v ensures FlatAt(s, e, v) == 0 { NoSpace(s, e); }
  }
}
