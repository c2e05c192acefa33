/** User-level copy-on-write fork, as a sequence of page system calls, and the eager fork it stands for. */
module CowFork {
  import opened Arithmetic
  import opened IntrusiveList
  import opened PageModel
  import opened PageProofs
  import opened AddressSpace
  import opened Lifetime

  const PFTEMP := 2047                   // PGNUM(PFTEMP)
  const EXCEPTION_STACK := USER_PAGES - 1  // PGNUM(UXSTACKTOP) - 1
  const READ_WRITE := PTE_P + PTE_U + PTE_W
  const READ_ONLY := PTE_P + PTE_U
  const SHARED := PTE_P + PTE_U + PTE_COW

  // ---------------------------------------------------------------- lib/fork.c

  /** memmove of one page. */
  function CopyPage(s: Mem, e: int, from: int, to: int): (r: Mem)
    ensures SameFrame(s, r)
  {
    var p, q := Lookup(s, e, from), Lookup(s, e, to);
    if 0 <= p < |s.words| then SetPage(s, q, s.words[p]) else s
  }

  function SetPage(s: Mem, p: int, data: seq<nat>): (r: Mem)
    ensures SameFrame(s, r)
  {
    if 0 <= p < |s.words| then s.(words := s.words[p := data]) else s
  }

  /** pgfault once PFTEMP has its page: copy, map the copy at `v`, unmap PFTEMP. */
  function CopyAndRemap(s: Mem, e: int, v: int): (Mem, bool) {
    var (s1, ok) := MapAt(CopyPage(s, e, v, PFTEMP), e, PFTEMP, e, v, READ_WRITE);
    if !ok then (s1, false) else (Remove(s1, e, PFTEMP), true)
  }

  /** pgfault on a copy-on-write page; false stands for a panic. */
  function PageFault(s: Mem, e: int, v: int): (Mem, bool) {
    var (s1, ok) := AllocAt(s, e, PFTEMP, READ_WRITE);
    if !ok then (s1, false) else CopyAndRemap(s1, e, v)
  }

  /** duppage; false stands for a panic. */
  function DupPage(s: Mem, parent: int, child: int, v: int): (Mem, bool) {
    var pte := FlatAt(s, parent, v);
    if Writable(pte) || CopyOnWrite(pte) then
      var (s1, ok) := MapAt(s, parent, v, child, v, SHARED);
      if !ok then (s1, false) else MapAt(s1, parent, v, parent, v, SHARED)
    else
      MapAt(s, parent, v, child, v, READ_ONLY)
  }

  /** The body of fork's loop, for page `v`. */
  function ForkOne(s: Mem, parent: int, child: int, v: nat): (Mem, bool) {
    if v == EXCEPTION_STACK || !Present(Pde(s, parent, v / ENTRIES)) then (s, true)
    else if !Present(FlatAt(s, parent, v)) || !User(FlatAt(s, parent, v)) then (s, true)
    else DupPage(s, parent, child, v)
  }

  /** The loop of fork after `n` pages. */
  function ForkLoop(s: Mem, parent: int, child: int, n: nat): (Mem, bool) {
    if n == 0 then (s, true)
    else
      var (s1, ok) := ForkLoop(s, parent, child, n - 1);
      if !ok then (s1, false) else ForkOne(s1, parent, child, n - 1)
  }

  /** fork, with `child` the slot sys_exofork gives; false stands for an error or a panic. */
  function ForkEnv(s: Mem, parent: int, child: int): (Mem, bool) {
    var (s1, ok1) := SetupVm(s, child);
    if !ok1 then (s1, false)
    else
      var (s2, ok2) := ForkLoop(s1, parent, child, USER_PAGES);
      if !ok2 then (s2, false) else AllocAt(s2, child, EXCEPTION_STACK, READ_WRITE)
  }

  // ---------------------------------------------------------------- what user code sees

  datatype View = Unmapped | Page(data: seq<nat>, canWrite: bool)

  predicate CanWrite(w: nat) { Writable(w) || CopyOnWrite(w) }

  function ViewAt(s: Mem, e: int, v: int): View {
    var w := FlatAt(s, e, v);
    if w == 0 || EntryPage(w) >= |s.words| then Unmapped else Page(s.words[EntryPage(w)], CanWrite(w))
  }

  lemma SameParity(x: nat, q: nat)
    ensures (2 * x + q) % 2 == q % 2
  {
  }

  /** Bits 1, 2 and 11 of the flags are the same in the whole entry. */
  lemma FlagBit1(p: nat, f: nat)
    ensures (p * 4096 + f) / 2 % 2 == f / 2 % 2
  {
    var q, r := f / 2, f % 2;
    ModUnique(p * 4096 + f, 2, 2 * (p * 1024) + q, r);
    SameParity(p * 1024, q);
  }

  lemma FlagBit2(p: nat, f: nat)
    ensures (p * 4096 + f) / 4 % 2 == f / 4 % 2
  {
    var q, r := f / 4, f % 4;
    ModUnique(p * 4096 + f, 4, 2 * (p * 512) + q, r);
    SameParity(p * 512, q);
  }

  lemma FlagBit11(p: nat, f: nat)
    ensures (p * 4096 + f) / 2048 % 2 == f / 2048 % 2
  {
    var q, r := f / 2048, f % 2048;
    ModUnique(p * 4096 + f, 2048, 2 * p + q, r);
    SameParity(p, q);
  }

  lemma EntryFlags(p: nat, perm: nat)
    requires perm < 4096
    ensures Writable(Entry(p, perm)) == Writable(perm) && User(Entry(p, perm)) == User(perm)
    ensures CopyOnWrite(Entry(p, perm)) == CopyOnWrite(perm)
  {
    var f := if perm % 2 == 1 then perm else perm + PTE_P;
    FlagBit1(p, f);
    FlagBit2(p, f);
    FlagBit11(p, f);
    assert f / 2 == perm / 2;
    assert f / 4 == perm / 4;
    assert f / 2048 == perm / 2048;
  }

  // ---------------------------------------------------------------- the invariant

  /** A page some environment may write directly is mapped nowhere else. */
  ghost predicate WritersAlone(s: Mem) {
    forall x, y | x in AllSlots() && y in AllSlots() && x.PageSlot? && y.PageSlot? && x != y ::
      Writable(FlatAt(s, x.e, x.v)) && FlatAt(s, y.e, y.v) != 0 ==> Target(s, x) != Target(s, y)
  }

  ghost predicate EntriesUser(s: Mem) {
    forall e, v :: PageSlot(e, v) in AllSlots() && FlatAt(s, e, v) != 0 ==> User(FlatAt(s, e, v))
  }

  ghost predicate TempUnmapped(s: Mem) {
    forall e :: 0 <= e < ENVS ==> FlatAt(s, e, PFTEMP) == 0
  }

  ghost predicate CowInv(s: Mem, loose: set<int>) {
    Inv(s, loose, NULL) && WritersAlone(s) && EntriesUser(s) && TempUnmapped(s)
  }

  /** In the kernel's own terms: a page mapped with PTE_W has pp_ref 1. */
  lemma WritableCountIsOne(s: Mem, e: nat, v: nat, loose: set<int>)
    requires Inv(s, loose, NULL) && PageSlot(e, v) in AllSlots() && Writable(FlatAt(s, e, v))
    ensures UserPage(s, EntryPage(FlatAt(s, e, v)))
    ensures s.refs[EntryPage(FlatAt(s, e, v))] == 1 <==>
            forall y :: y in AllSlots() && y.PageSlot? && y != PageSlot(e, v) ==>
              Target(s, y) != EntryPage(FlatAt(s, e, v))
  {
    var x := PageSlot(e, v);
    var p := Target(s, x);
    MappedIsUser(s, x, loose);
    assert x in Refs(s, p);
    if s.refs[p] == 1 {
      assert |Refs(s, p) - {x}| == 0;
      forall y | y in AllSlots() && Target(s, y) == p ensures y == x {
        assert y in Refs(s, p) && (y != x ==> y in Refs(s, p) - {x});
      }
    }
    if forall y :: y in AllSlots() && y.PageSlot? && y != x ==> Target(s, y) != p {
      assert !IsTable(s, p);
      assert Refs(s, p) == {x};
    }
  }

  // ---------------------------------------------------------------- how one entry changes the views

  ghost predicate OtherViewsKept(s: Mem, s': Mem, e: int, v: int) {
    forall e2, v2 :: PageSlot(e2, v2) in AllSlots() && !(e2 == e && v2 == v) ==> ViewAt(s', e2, v2) == ViewAt(s, e2, v2)
  }

  lemma ViewsUpdated(s: Mem, s': Mem, e: nat, v: nat, w: nat, loose: set<int>)
    requires Inv(s, loose, NULL) && FlatUpdated(s, s', e, v, w) && SameContents(s, s')
    ensures OtherViewsKept(s, s', e, v)
    ensures PageSlot(e, v) in AllSlots() && w == 0 ==> ViewAt(s', e, v) == Unmapped
    ensures PageSlot(e, v) in AllSlots() && w != 0 && UserPage(s, EntryPage(w)) ==>
              ViewAt(s', e, v) == Page(s.words[EntryPage(w)], CanWrite(w))
  {
    forall e2, v2 | PageSlot(e2, v2) in AllSlots() && !(e2 == e && v2 == v)
      ensures ViewAt(s', e2, v2) == ViewAt(s, e2, v2)
    {
      if FlatAt(s, e2, v2) != 0 { MappedIsUser(s, PageSlot(e2, v2), loose); }
    }
  }

  lemma WritersUpdated(s: Mem, s': Mem, e: nat, v: nat, w: nat)
    requires WritersAlone(s) && EntriesUser(s) && FlatUpdated(s, s', e, v, w) && PageSlot(e, v) in AllSlots()
    requires w != 0 ==> User(w) && forall y ::
               y in AllSlots() && y.PageSlot? && y != PageSlot(e, v) &&
               (Writable(w) || Writable(FlatAt(s, y.e, y.v))) ==>
               Target(s, y) != EntryPage(w)
    ensures WritersAlone(s') && EntriesUser(s')
  {
    forall x, y | x in AllSlots() && y in AllSlots() && x.PageSlot? && y.PageSlot? && x != y
      ensures Writable(FlatAt(s', x.e, x.v)) && FlatAt(s', y.e, y.v) != 0 ==> Target(s', x) != Target(s', y)
    {
      assert FlatAt(s', x.e, x.v) == if x == PageSlot(e, v) then w else FlatAt(s, x.e, x.v);
      assert FlatAt(s', y.e, y.v) == if y == PageSlot(e, v) then w else FlatAt(s, y.e, y.v);
    }
  }

  /** User code writing one of its pages changes no table. */
  lemma SetPageCorrect(s: Mem, p: nat, data: seq<nat>, loose: set<int>)
    requires Inv(s, loose, NULL) && UserPage(s, p) && |data| == ENTRIES
    ensures var s' := SetPage(s, p, data);
            && Inv(s', loose, NULL) && SameMap(s, s') && (forall q :: UserPage(s', q) == UserPage(s, q))
            && s'.words == s.words[p := data] && s'.refs == s.refs
  {
    var s' := SetPage(s, p, data);
    forall e, d | DirSlot(e, d) in AllSlots() ensures Pde(s', e, d) == Pde(s, e, d) {
      assert RootSlot(e) in AllSlots() && Target(s, RootSlot(e)) == Root(s, e);
      assert Root(s, e) != NULL ==> IsTable(s, Root(s, e));
    }
    forall e, v | PageSlot(e, v) in AllSlots() ensures FlatAt(s', e, v) == FlatAt(s, e, v) {
      var sl := DirSlot(e, v / ENTRIES);
      assert sl in AllSlots();
      assert Pde(s, e, v / ENTRIES) != 0 ==>
               Target(s, sl) == EntryPage(Pde(s, e, v / ENTRIES)) && IsTable(s, Target(s, sl));
    }
    forall sl | sl in AllSlots() ensures Target(s', sl) == Target(s, sl) {}
    forall q ensures Refs(s', q) == Refs(s, q) {}
    SameTargetsSameTables(s, s');
    SameTargetsSameTables(s', s);
  }

  /** Writing a page mapped writable at `v` in `e` changes that view and no other. */
  lemma WriteCorrect(s: Mem, e: nat, v: nat, data: seq<nat>, loose: set<int>)
    requires Inv(s, loose, NULL) && WritersAlone(s) && EntriesUser(s) && |data| == ENTRIES
    requires PageSlot(e, v) in AllSlots() && Writable(FlatAt(s, e, v))
    ensures var s' := SetPage(s, EntryPage(FlatAt(s, e, v)), data);
            && Inv(s', loose, NULL) && WritersAlone(s') && EntriesUser(s') && SameMap(s, s')
            && OtherViewsKept(s, s', e, v) && ViewAt(s', e, v) == Page(data, true)
  {
    var x, p := PageSlot(e, v), EntryPage(FlatAt(s, e, v));
    MappedIsUser(s, x, loose);
    assert Target(s, x) == p;
    SetPageCorrect(s, p, data, loose);
    var s' := SetPage(s, p, data);
    forall e2, v2 | PageSlot(e2, v2) in AllSlots() && !(e2 == e && v2 == v)
      ensures ViewAt(s', e2, v2) == ViewAt(s, e2, v2)
    {
      var y := PageSlot(e2, v2);
      assert FlatAt(s, e2, v2) != 0 ==> Target(s, y) == EntryPage(FlatAt(s, e2, v2)) && Target(s, x) != Target(s, y);
    }
    SameMapWriters(s, s');
  }

  lemma SameMapWriters(s: Mem, s': Mem)
    requires SameMap(s, s') && WritersAlone(s) && EntriesUser(s)
    ensures WritersAlone(s') && EntriesUser(s')
  {
    forall x, y | x in AllSlots() && y in AllSlots() && x.PageSlot? && y.PageSlot? && x != y
      ensures Writable(FlatAt(s', x.e, x.v)) && FlatAt(s', y.e, y.v) != 0 ==> Target(s', x) != Target(s', y)
    {
      assert PageSlot(x.e, x.v) == x && PageSlot(y.e, y.v) == y;
      assert Target(s, x) == EntryTarget(FlatAt(s, x.e, x.v)) && Target(s, y) == EntryTarget(FlatAt(s, y.e, y.v));
    }
  }

  // ---------------------------------------------------------------- the steps of user code

  ghost predicate Core(s: Mem, loose: set<int>) {
    Inv(s, loose, NULL) && WritersAlone(s) && EntriesUser(s)
  }

  /** Only the entry of `e` at `v` differs, and with it only that view. */
  ghost predicate OnlyChanged(s: Mem, s': Mem, e: int, v: int) {
    && s'.roots == s.roots && OtherViewsKept(s, s', e, v)
    && (forall e2, v2 :: PageSlot(e2, v2) in AllSlots() && !(e2 == e && v2 == v) ==>
          FlatAt(s', e2, v2) == FlatAt(s, e2, v2))
  }

  /** sys_page_alloc on one's own page: a zeroed page nobody else maps. */
  lemma AllocStep(s: Mem, e: nat, v: nat, perm: nat, loose: set<int>)
    requires Core(s, loose) && PageSlot(e, v) in AllSlots() && Root(s, e) != NULL && perm < 4096 && User(perm)
    requires AllocAt(s, e, v, perm).1
    ensures var s' := AllocAt(s, e, v, perm).0;
            && Core(s', loose) && OnlyChanged(s, s', e, v)
            && ViewAt(s', e, v) == Page(ZeroPage(), CanWrite(perm)) && FlatAt(s', e, v) != 0
            && Writable(FlatAt(s', e, v)) == Writable(perm)
  {
    AllocAtCorrect(s, e, v, perm, loose);
    var s', p := AllocAt(s, e, v, perm).0, s.free[0];
    EntryFlags(p, perm);
    ViewsUpdated(s, s', e, v, Entry(p, perm), loose);
    WritersUpdated(s, s', e, v, Entry(p, perm));
  }

  /** page_remove of one's own page. */
  lemma UnmapStep(s: Mem, e: nat, v: nat, loose: set<int>)
    requires Core(s, loose) && PageSlot(e, v) in AllSlots()
    ensures var s' := Remove(s, e, v);
            && Core(s', loose) && s'.roots == s.roots && OtherViewsKept(s, s', e, v) && ViewAt(s', e, v) == Unmapped
            && FlatUpdated(s, s', e, v, 0)
  {
    RemoveCorrect(s, e, v, loose, NULL);
    ViewsUpdated(s, Remove(s, e, v), e, v, 0, loose);
    WritersUpdated(s, Remove(s, e, v), e, v, 0);
  }

  /** Mapping a second time a page only its owner writes, then dropping the first mapping. */
  lemma MoveWriters(s: Mem, s1: Mem, s2: Mem, e: nat, from: nat, to: nat, w: nat)
    requires WritersAlone(s) && EntriesUser(s) && FlatUpdated(s, s1, e, to, w) && FlatUpdated(s1, s2, e, from, 0)
    requires PageSlot(e, from) in AllSlots() && PageSlot(e, to) in AllSlots() && from != to
    requires Writable(FlatAt(s, e, from)) && w != 0 && EntryPage(w) == EntryPage(FlatAt(s, e, from)) && User(w)
    ensures WritersAlone(s2) && EntriesUser(s2)
  {
    var x0, y0 := PageSlot(e, from), PageSlot(e, to);
    forall x, y | x in AllSlots() && y in AllSlots() && x.PageSlot? && y.PageSlot? && x != y
      ensures Writable(FlatAt(s2, x.e, x.v)) && FlatAt(s2, y.e, y.v) != 0 ==> Target(s2, x) != Target(s2, y)
    {
      assert FlatAt(s2, x.e, x.v) == if x == x0 then 0 else if x == y0 then w else FlatAt(s, x.e, x.v);
      assert FlatAt(s2, y.e, y.v) == if y == x0 then 0 else if y == y0 then w else FlatAt(s, y.e, y.v);
    }
  }

  lemma MapStep(s: Mem, src: nat, sv: nat, dst: nat, dv: nat, perm: nat, loose: set<int>)
    requires Inv(s, loose, NULL) && PageSlot(src, sv) in AllSlots() && PageSlot(dst, dv) in AllSlots()
    requires Root(s, dst) != NULL && perm < 4096 && MapAt(s, src, sv, dst, dv, perm).1
    requires FlatAt(s, src, sv) != 0 ==> EntryPage(FlatAt(s, src, sv)) < |s.refs| ==>
               s.refs[EntryPage(FlatAt(s, src, sv))] < REF_LIMIT - 1
    ensures var s', p := MapAt(s, src, sv, dst, dv, perm).0, EntryPage(FlatAt(s, src, sv));
            && FlatAt(s, src, sv) != 0 && UserPage(s, p)
            && Inv(s', loose, NULL) && s'.roots == s.roots && FlatUpdated(s, s', dst, dv, Entry(p, perm))
            && OtherViewsKept(s, s', dst, dv) && ViewAt(s', dst, dv) == Page(s.words[p], CanWrite(perm))
  {
    MapAtCorrect(s, src, sv, dst, dv, perm, loose);
    var s', p := MapAt(s, src, sv, dst, dv, perm).0, EntryPage(FlatAt(s, src, sv));
    EntryFlags(p, perm);
    ViewsUpdated(s, s', dst, dv, Entry(p, perm), loose);
  }

  /** memmove to a page the environment may write directly. */
  lemma CopyStep(s: Mem, e: nat, from: nat, to: nat, loose: set<int>)
    requires Core(s, loose) && PageSlot(e, from) in AllSlots() && PageSlot(e, to) in AllSlots()
    requires ViewAt(s, e, from).Page? && Writable(FlatAt(s, e, to))
    ensures var s' := CopyPage(s, e, from, to);
            && Core(s', loose) && OnlyChanged(s, s', e, to) && FlatAt(s', e, to) == FlatAt(s, e, to)
            && ViewAt(s', e, to) == Page(ViewAt(s, e, from).data, true)
  {
    MappedIsUser(s, PageSlot(e, from), loose);
    MappedIsUser(s, PageSlot(e, to), loose);
    WriteCorrect(s, e, to, ViewAt(s, e, from).data, loose);
    assert CopyPage(s, e, from, to) == SetPage(s, EntryPage(FlatAt(s, e, to)), ViewAt(s, e, from).data);
  }

  lemma WritableAlone(s: Mem, e: nat, v: nat, loose: set<int>)
    requires Core(s, loose) && PageSlot(e, v) in AllSlots() && Writable(FlatAt(s, e, v))
    ensures UserPage(s, EntryPage(FlatAt(s, e, v))) && s.refs[EntryPage(FlatAt(s, e, v))] == 1
  {
    WritableCountIsOne(s, e, v, loose);
    forall y | y in AllSlots() && y.PageSlot? && y != PageSlot(e, v)
      ensures Target(s, y) != EntryPage(FlatAt(s, e, v))
    {
      assert FlatAt(s, y.e, y.v) != 0 ==> Target(s, y) != Target(s, PageSlot(e, v));
    }
  }

  /** `s1` maps at `v` the page `s` maps at PFTEMP, with entry `w`; `s2` no longer maps PFTEMP. */
  lemma MoveStep(s: Mem, s1: Mem, s2: Mem, e: nat, v: nat, w: nat, loose: set<int>)
    requires Core(s, loose) && PageSlot(e, v) in AllSlots() && v != PFTEMP && Writable(FlatAt(s, e, PFTEMP))
    requires Inv(s1, loose, NULL) && FlatUpdated(s, s1, e, v, w) && OtherViewsKept(s, s1, e, v)
    requires w != 0 && EntryPage(w) == EntryPage(FlatAt(s, e, PFTEMP)) && User(w) && s1.roots == s.roots
    requires s2 == Remove(s1, e, PFTEMP)
    ensures Core(s2, loose) && s2.roots == s.roots && ViewAt(s2, e, v) == ViewAt(s1, e, v) && FlatAt(s2, e, v) == w
    ensures FlatAt(s2, e, PFTEMP) == 0
    ensures forall e2, v2 :: PageSlot(e2, v2) in AllSlots() && !(e2 == e && (v2 == v || v2 == PFTEMP)) ==>
              ViewAt(s2, e2, v2) == ViewAt(s, e2, v2) && FlatAt(s2, e2, v2) == FlatAt(s, e2, v2)
  {
    assert PageSlot(e, PFTEMP) in AllSlots();
    RemoveCorrect(s1, e, PFTEMP, loose, NULL);
    ViewsUpdated(s1, s2, e, PFTEMP, 0, loose);
    MoveWriters(s, s1, s2, e, PFTEMP, v, w);
  }

  /** The system calls of pgfault after its sys_page_alloc. */
  lemma FaultTail(s: Mem, e: nat, v: nat, loose: set<int>)
    requires Core(s, loose) && PageSlot(e, v) in AllSlots() && v != PFTEMP && Root(s, e) != NULL
    requires ViewAt(s, e, v).Page? && Writable(FlatAt(s, e, PFTEMP))
    requires CopyAndRemap(s, e, v).1
    ensures var s' := CopyAndRemap(s, e, v).0;
            && Core(s', loose) && s'.roots == s.roots && ViewAt(s', e, v) == Page(ViewAt(s, e, v).data, true)
            && Writable(FlatAt(s', e, v)) && FlatAt(s', e, PFTEMP) == 0
            && (forall e2, v2 :: PageSlot(e2, v2) in AllSlots() && !(e2 == e && (v2 == v || v2 == PFTEMP)) ==>
                  ViewAt(s', e2, v2) == ViewAt(s, e2, v2) && FlatAt(s', e2, v2) == FlatAt(s, e2, v2))
  {
    hide Inv, MapAt, CopyPage, Remove;
    assert PageSlot(e, PFTEMP) in AllSlots();
    CopyStep(s, e, v, PFTEMP, loose);
    var s1 := CopyPage(s, e, v, PFTEMP);
    WritableAlone(s1, e, PFTEMP, loose);
    MapStep(s1, e, PFTEMP, e, v, READ_WRITE, loose);
    var q := EntryPage(FlatAt(s1, e, PFTEMP));
    EntryFlags(q, READ_WRITE);
    var s2 := MapAt(s1, e, PFTEMP, e, v, READ_WRITE).0;
    MoveStep(s1, s2, Remove(s2, e, PFTEMP), e, v, Entry(q, READ_WRITE), loose);
  }

  /** pgfault replaces a shared page by a private writable copy: what every environment reads stays. */
  lemma PageFaultCorrect(s: Mem, e: nat, v: nat, loose: set<int>)
    requires CowInv(s, loose) && PageSlot(e, v) in AllSlots() && v != PFTEMP && Root(s, e) != NULL
    requires ViewAt(s, e, v).Page? && PageFault(s, e, v).1
    ensures var s' := PageFault(s, e, v).0;
            && CowInv(s', loose) && s'.roots == s.roots && OtherViewsKept(s, s', e, v)
            && ViewAt(s', e, v) == Page(ViewAt(s, e, v).data, true) && Writable(FlatAt(s', e, v))
  {
    hide Inv, AllocAt, CopyAndRemap;
    assert forall e2 :: 0 <= e2 < ENVS ==> PageSlot(e2, PFTEMP) in AllSlots();
    AllocStep(s, e, PFTEMP, READ_WRITE, loose);
    FaultTail(AllocAt(s, e, PFTEMP, READ_WRITE).0, e, v, loose);
  }
}
