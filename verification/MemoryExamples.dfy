/** Inputs at which the memory calls break their counts: small machines right after boot. */
module MemoryExamples {
  import opened IntrusiveList
  import opened PageModel
  import opened PageProofs
  import opened AddressSpace
  import opened Lifetime
  import opened Pmap

  /** A machine of |free| + 1 pages, page 0 kept by boot, with no environment yet. */
  function Small(free: seq<int>): Mem {
    var n := |free| + 1;
    Mem(free, seq(n, _ => 0), seq(n, _ => ZeroPage()), seq(ENVS, _ => NULL), {0}, seq(ENTRIES, _ => 0))
  }

  lemma SmallInv(free: seq<int>)
    requires Distinct(free) && forall p :: p in free <==> 1 <= p <= |free|
    ensures Inv(Small(free), {}, NULL)
  {
    hide Inv;
    NothingMapped(Small(free));
  }

  /** The first environment takes the first free page as its directory. */
  lemma FirstEnvironment(free: seq<int>)
    requires free != [] && Distinct(free) && forall p :: p in free <==> 1 <= p <= |free|
    ensures var (s, ok) := SetupVm(Small(free), 0);
            && ok && Inv(s, {}, NULL) && s.free == free[1..] && Root(s, 0) != NULL
            && (forall v :: PageSlot(0, v) in AllSlots() ==> FlatAt(s, 0, v) == 0) && Pde(s, 0, 0) == 0
  {
    SmallInv(free);
    assert free[0] in free;
    hide Inv;
    SetupVmCorrect(Small(free), 0, {});
  }

  /** Two free pages: the first becomes a directory; sys_page_alloc takes the second, finds none for a page table,
      fails, and leaves the page neither free nor mapped. */
  lemma LosesItsPage()
    ensures var (s, _) := SetupVm(Small([1, 2]), 0); var (s', ok) := AllocAt(s, 0, 5, PTE_P + PTE_U + PTE_W);
            Inv(s, {}, NULL) && !ok && !Inv(s', {}, NULL) && 2 !in s'.free && Refs(s', 2) == {}
  {
    FirstEnvironment([1, 2]);
    UserPerms();
    var s := SetupVm(Small([1, 2]), 0).0;
    var s' := AllocAt(s, 0, 5, PTE_P + PTE_U + PTE_W).0;
    hide Inv, SetupVm, Small, FlatAt;
    AllocAtExactIff(s, 0, 5, PTE_P + PTE_U + PTE_W, {});
    AllocAtCorrect(s, 0, 5, PTE_P + PTE_U + PTE_W, {});
    LostPage(s', {s.free[0]}, 2);
  }

  lemma LostPage(s: Mem, loose: set<int>, p: int)
    requires Inv(s, loose, NULL) && p in loose
    ensures p !in s.free && Refs(s, p) == {}
  {
  }

  /** Four free pages: directory 1, page 2 at page number 5, page table 3. Mapping page 2 again at 6 with perm
      0x1005 writes an entry for page 3, the environment's own page table, and counts it as page 2. */
  lemma MapsItsPageTable()
    ensures var (s, _) := SetupVm(Small([1, 2, 3, 4]), 0);
            var (s1, ok1) := AllocAt(s, 0, 5, PTE_P + PTE_U + PTE_W);
            var (s2, ok2) := MapAt(s1, 0, 5, 0, 6, 0x1005);
            ok1 && Inv(s1, {}, NULL) && Lookup(s1, 0, 5) == 2 && ok2 && Lookup(s2, 0, 6) == 3 && !Inv(s2, {}, NULL)
  {
    FirstEnvironment([1, 2, 3, 4]);
    UserPerms();
    var s := SetupVm(Small([1, 2, 3, 4]), 0).0;
    var s1 := AllocAt(s, 0, 5, PTE_P + PTE_U + PTE_W).0;
    hide Inv, SetupVm, Small, FlatAt, AllocAt, SyscallPerm;
    assert PageSlot(0, 5) in AllSlots();
    AllocAtCorrect(s, 0, 5, PTE_P + PTE_U + PTE_W, {});
    MapsAnotherPage(s1, 0, 5, 6, {});
  }
}
