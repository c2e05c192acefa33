/** The page allocator and the two-level page tables of the kernel, as transition functions on
    a snapshot of memory. `Pmap.dfy` holds the code that updates the arrays in place and is
    proved to compute exactly these functions. */
module PageModel {
  import opened IntrusiveList

  const ENTRIES := 1024       // entries in a page directory and in a page table
  const USER_DIRS := 955      // PDX(UTOP): directory entries below UTOP
  const USER_PAGES := 977920  // PGNUM(UTOP): pages below UTOP
  const UVPT_DIR := 957       // PDX(UVPT)
  const ENVS := 1024          // NENV
  const REF_LIMIT := 0x10000  // pp_ref is a uint16_t

  const PTE_P := 1
  const PTE_W := 2
  const PTE_U := 4
  const PTE_COW := 0x800

  function ZeroPage(): (r: seq<nat>)
    ensures |r| == ENTRIES && forall i :: 0 <= i < ENTRIES ==> r[i] == 0
  {
    seq(ENTRIES, _ => 0)
  }

  /** Bitwise or. */
  function BitOr(a: nat, b: nat): (r: nat)
    ensures b == 0 ==> r == a
  {
    if b == 0 then a
    else if a == 0 then b
    else 2 * BitOr(a / 2, b / 2) + if a % 2 == 1 || b % 2 == 1 then 1 else 0
  }

  /** page2pa(page) | perm | PTE_P: twelve flag bits below a page number, into which page_insert lets whatever
      `perm` holds above the flags. */
  function Entry(page: nat, perm: nat): (w: nat)
    ensures w != 0 && EntryPage(w) == BitOr(page, perm / 4096) && Present(w)
    ensures perm < 4096 ==> EntryPage(w) == page
  {
    BitOr(page, perm / 4096) * 4096 + if perm % 2 == 1 then perm % 4096 else perm % 4096 + PTE_P
  }

  /** What `perm` holds above the flags leaves the page number as it is. */
  predicate SamePage(page: nat, perm: nat) { BitOr(page, perm / 4096) == page }

  function EntryPage(w: nat): nat { w / 4096 }
  predicate Present(w: nat) { w % 2 == 1 }
  predicate Writable(w: nat) { w / PTE_W % 2 == 1 }
  predicate User(w: nat) { w / PTE_U % 2 == 1 }
  predicate CopyOnWrite(w: nat) { w / PTE_COW % 2 == 1 }

  /** free: page_free_list in list order. refs: pp_ref of every page. words: physical memory, page by
      page. roots: page holding env_pgdir of every slot of envs[], NULL if none. reserved: pages that
      page_init keeps out of the allocator. kern: the words of kern_pgdir. */
  datatype Mem = Mem(
    free: seq<int>,
    refs: seq<nat>,
    words: seq<seq<nat>>,
    roots: seq<int>,
    reserved: set<int>,
    kern: seq<nat>)

  /** What no operation changes: the amount of memory, and what boot has fixed. */
  predicate SameFrame(s: Mem, r: Mem) {
    && r.reserved == s.reserved && r.kern == s.kern
    && |r.words| == |s.words| && |r.refs| == |s.refs| && |r.roots| == |s.roots|
  }

  function Word(s: Mem, page: int, i: int): nat {
    if 0 <= page < |s.words| && 0 <= i < |s.words[page]| then s.words[page][i] else 0
  }

  function Root(s: Mem, e: int): int {
    if 0 <= e < |s.roots| then s.roots[e] else NULL
  }

  /** Directory entry `d` of environment `e`. */
  function Pde(s: Mem, e: int, d: int): nat {
    Word(s, Root(s, e), d)
  }

  /** The two-level walk read as one flat map: the entry of page number `v` of environment `e`, 0 if
      either level has none. */
  function FlatAt(s: Mem, e: int, v: int): nat {
    if Pde(s, e, v / ENTRIES) == 0 then 0 else Word(s, EntryPage(Pde(s, e, v / ENTRIES)), v % ENTRIES)
  }

  /** Total, so that the operations below are: KADDR and pa2page panic outside physical memory, which
      the invariant rules out. */
  function SetWord(s: Mem, page: int, i: int, w: nat): (r: Mem)
    ensures SameFrame(s, r)
  {
    if 0 <= page < |s.words| && 0 <= i < |s.words[page]| then
      var updated: seq<nat> := s.words[page][i := w];
      s.(words := s.words[page := updated])
    else s
  }

  // ---------------------------------------------------------------- the operations of pmap.c and env.c

  predicate IsPage(s: Mem, p: int) {
    0 <= p < |s.words| && |s.words[p]| == ENTRIES && p < |s.refs|
  }

  function Dec16(r: nat): nat { (r + REF_LIMIT - 1) % REF_LIMIT }
  function Inc16(r: nat): nat { (r + 1) % REF_LIMIT }

  /** page_decref, with page_free at zero. */
  function Decref(s: Mem, p: int): (r: Mem)
    ensures SameFrame(s, r)
  {
    if 0 <= p < |s.refs| then
      var r := Dec16(s.refs[p]);
      s.(refs := s.refs[p := r], free := if r == 0 then [p] + s.free else s.free)
    else s
  }

  function Incref(s: Mem, p: int): (r: Mem)
    ensures SameFrame(s, r)
  {
    if 0 <= p < |s.refs| then s.(refs := s.refs[p := Inc16(s.refs[p])]) else s
  }

  /** page_alloc takes the head of the free list; this is the memory left. */
  function AfterAlloc(s: Mem, fill: seq<nat>): (r: Mem)
    requires s.free != []
    ensures SameFrame(s, r)
  {
    s.(free := s.free[1..], words := if 0 <= s.free[0] < |s.words| then s.words[s.free[0] := fill] else s.words)
  }

  /** pgdir_walk with create != 0. */
  function EnsureTable(s: Mem, e: int, d: int): (r: Mem)
    ensures SameFrame(s, r)
  {
    if Pde(s, e, d) != 0 || s.free == [] || s.free[0] < 0 then s
    else
      var pt := s.free[0];
      SetWord(Incref(AfterAlloc(s, ZeroPage()), pt), Root(s, e), d, Entry(pt, PTE_W + PTE_U))
  }

  /** page_lookup: the page mapped at `v`, NULL if none. */
  function Lookup(s: Mem, e: int, v: int): int {
    if FlatAt(s, e, v) == 0 then NULL else EntryPage(FlatAt(s, e, v))
  }

  /** page_remove. */
  function Remove(s: Mem, e: int, v: int): (r: Mem)
    ensures SameFrame(s, r)
  {
    if FlatAt(s, e, v) == 0 then s
    else SetWord(Decref(s, Lookup(s, e, v)), EntryPage(Pde(s, e, v / ENTRIES)), v % ENTRIES, 0)
  }

  /** page_insert; false stands for -E_NO_MEM. */
  function Insert(s: Mem, e: int, p: nat, v: int, perm: nat): (r: (Mem, bool))
    ensures SameFrame(s, r.0)
  {
    var s1 := EnsureTable(s, e, v / ENTRIES);
    if Pde(s1, e, v / ENTRIES) == 0 then (s1, false)
    else
      var s2 := Remove(Incref(s1, p), e, v);
      (SetWord(s2, EntryPage(Pde(s1, e, v / ENTRIES)), v % ENTRIES, Entry(p, perm)), true)
  }

  /** env_setup_vm: a page directory that copies kern_pgdir and maps itself at UVPT. */
  function SetupVm(s: Mem, e: int): (r: (Mem, bool))
    ensures SameFrame(s, r.0)
  {
    if s.free == [] || s.free[0] < 0 || !(0 <= e < |s.roots|) || UVPT_DIR >= |s.kern| then (s, false)
    else
      var p := s.free[0];
      (Incref(AfterAlloc(s, s.kern[UVPT_DIR := Entry(p, PTE_U)]), p).(roots := s.roots[e := p]), true)
  }

  /** env_free's inner loop: `n` entries of the page table whose first page number is `first`. */
  function FreeTable(s: Mem, e: int, first: nat, n: nat): (r: Mem)
    ensures SameFrame(s, r)
  {
    if n == 0 then s
    else
      var s1 := FreeTable(s, e, first, n - 1);
      if Present(FlatAt(s1, e, first + n - 1)) then Remove(s1, e, first + n - 1) else s1
  }

  /** env_free's outer loop after `n` directory entries. */
  function FreeDirs(s: Mem, e: int, n: nat): (r: Mem)
    ensures SameFrame(s, r)
  {
    if n == 0 then s
    else
      var s1 := FreeDirs(s, e, n - 1);
      if !Present(Pde(s1, e, n - 1)) then s1
      else
        Decref(SetWord(FreeTable(s1, e, (n - 1) * ENTRIES, ENTRIES), Root(s1, e), n - 1, 0),
               EntryPage(Pde(s1, e, n - 1)))
  }

  /** env_free, the memory part. */
  function FreeEnv(s: Mem, e: int): (r: Mem)
    ensures SameFrame(s, r)
  {
    var s1 := FreeDirs(s, e, USER_DIRS);
    if 0 <= e < |s1.roots| then Decref(s1.(roots := s1.roots[e := NULL]), Root(s1, e)) else s1
  }

  // ---------------------------------------------------------------- who refers to a page

  /** A place that can hold a counted reference to a page. */
  datatype Slot = RootSlot(e: int) | DirSlot(e: int, d: int) | PageSlot(e: int, v: int)

  ghost function AllSlots(): (r: set<Slot>)
    ensures forall e :: RootSlot(e) in r <==> 0 <= e < ENVS
    ensures forall e, d :: DirSlot(e, d) in r <==> 0 <= e < ENVS && 0 <= d < USER_DIRS
    ensures forall e, v :: PageSlot(e, v) in r <==> 0 <= e < ENVS && 0 <= v < USER_PAGES
  {
    (set e: int | 0 <= e < ENVS :: RootSlot(e)) +
    (set e: int, d: int | 0 <= e < ENVS && 0 <= d < USER_DIRS :: DirSlot(e, d)) +
    (set e: int, v: int | 0 <= e < ENVS && 0 <= v < USER_PAGES :: PageSlot(e, v))
  }

  function EntryTarget(w: nat): int { if w == 0 then NULL else EntryPage(w) }

  function Target(s: Mem, sl: Slot): int {
    match sl
    case RootSlot(e) => Root(s, e)
    case DirSlot(e, d) => EntryTarget(Pde(s, e, d))
    case PageSlot(e, v) => EntryTarget(FlatAt(s, e, v))
  }

  ghost function Refs(s: Mem, p: int): set<Slot> {
    set sl | sl in AllSlots() && Target(s, sl) == p
  }

  ghost predicate Shape(s: Mem) {
    && |s.refs| == |s.words| && |s.roots| == ENVS && |s.kern| == ENTRIES
    && (forall p :: 0 <= p < |s.words| ==> |s.words[p]| == ENTRIES)
    && (forall d :: 0 <= d < USER_DIRS ==> s.kern[d] == 0)
  }

  ghost predicate Managed(s: Mem, p: int) { 0 <= p < |s.words| && p !in s.reserved }

  ghost predicate TargetsManaged(s: Mem) {
    forall sl :: sl in AllSlots() ==> Target(s, sl) == NULL || Managed(s, Target(s, sl))
  }

  /** Page directories and page tables are each referred to by exactly one slot. */
  ghost predicate TablesUnique(s: Mem) {
    forall sl, other | sl in AllSlots() && other in AllSlots() && !sl.PageSlot? && Target(s, sl) != NULL ::
      Target(s, other) == Target(s, sl) ==> other == sl
  }

  /** `*pte && PTE_P` in the code is a logical "and": it tests presence because of this. */
  ghost predicate EntriesPresent(s: Mem) {
    && (forall e, d :: DirSlot(e, d) in AllSlots() && Pde(s, e, d) != 0 ==>
          Pde(s, e, d) == Entry(EntryPage(Pde(s, e, d)), PTE_W + PTE_U))
    && (forall e, v :: PageSlot(e, v) in AllSlots() && FlatAt(s, e, v) != 0 ==> Present(FlatAt(s, e, v)))
  }

  /** Counts are exact, apart from one reference to `held` counted but not written yet. */
  ghost predicate CountsExact(s: Mem, held: int) {
    forall p :: Managed(s, p) && p < |s.refs| ==>
      s.refs[p] == |Refs(s, p)| + (if p == held then 1 else 0) < REF_LIMIT
  }

  /** The free list holds exactly the pages with count 0, apart from `loose` ones: allocated, not
      mapped anywhere yet. */
  ghost predicate FreeExact(s: Mem, loose: set<int>) {
    && Distinct(s.free)
    && (forall p :: p in s.free <==> Managed(s, p) && p < |s.refs| && s.refs[p] == 0 && p !in loose)
    && (forall p :: p in loose ==> Managed(s, p) && p < |s.refs| && s.refs[p] == 0)
  }

  ghost predicate IsTable(s: Mem, p: int) {
    exists sl :: sl in AllSlots() && !sl.PageSlot? && Target(s, sl) == p
  }

  ghost predicate Inv(s: Mem, loose: set<int>, held: int) {
    && Shape(s) && TargetsManaged(s) && TablesUnique(s) && EntriesPresent(s)
    && CountsExact(s, held) && FreeExact(s, loose)
    && (held != NULL ==> Managed(s, held) && !IsTable(s, held))
  }
}
