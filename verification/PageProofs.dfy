/** What the page operations keep: exact reference counts, an exact free list, and a two-level
    table that behaves as one flat map. */
module PageProofs {
  import opened IntrusiveList
  import opened PageModel

  // ---------------------------------------------------------------- one slot changes

  ghost predicate SameTargetsBut(s: Mem, s': Mem, x: Slot) {
    forall sl :: sl in AllSlots() && sl != x ==> Target(s', sl) == Target(s, sl)
  }

  /** No reference held by another environment than `e` changes. */
  ghost predicate OtherTargets(s: Mem, s': Mem, e: int) {
    forall sl :: sl in AllSlots() && sl.e != e ==> Target(s', sl) == Target(s, sl)
  }

  lemma RefsStep(s: Mem, s': Mem, x: Slot, p: int)
    requires x in AllSlots() && SameTargetsBut(s, s', x)
    ensures Refs(s', p) == if Target(s', x) == p then Refs(s, p) + {x} else Refs(s, p) - {x}
    ensures |Refs(s', p)| ==
            |Refs(s, p)| + (if Target(s', x) == p then 1 else 0) - (if Target(s, x) == p then 1 else 0)
  {
    var was, now := Refs(s, p), Refs(s', p);
    assert x in was <==> Target(s, x) == p;
    if Target(s', x) == p {
      assert now == was + {x};
      if x in was { assert now == was; }
    } else {
      assert now == was - {x};
    }
  }

  lemma NoRefs(s: Mem, p: int)
    requires Refs(s, p) == {}
    ensures forall sl :: sl in AllSlots() ==> Target(s, sl) != p
  {
    forall sl | sl in AllSlots() ensures Target(s, sl) != p {
      assert Target(s, sl) == p ==> sl in Refs(s, p);
    }
  }

  lemma Referenced(s: Mem, sl: Slot, loose: set<int>, held: int)
    requires Inv(s, loose, held) && sl in AllSlots() && Target(s, sl) != NULL
    ensures Managed(s, Target(s, sl)) && s.refs[Target(s, sl)] > 0 && IsPage(s, Target(s, sl))
    ensures Target(s, sl) !in s.free && Target(s, sl) !in loose
    ensures !sl.PageSlot? ==> Target(s, sl) != held && s.refs[Target(s, sl)] == 1
  {
    var p := Target(s, sl);
    assert sl in Refs(s, p);
    if !sl.PageSlot? {
      assert IsTable(s, p);
      assert Refs(s, p) == {sl};
    }
  }

  // ---------------------------------------------------------------- writing one page-table entry

  /** Writing entry `v` of environment `e` changes what `v` maps to in `e` and nothing else. */
  lemma SetEntryFrame(s: Mem, e: nat, v: nat, w: nat)
    requires Shape(s) && TargetsManaged(s) && TablesUnique(s)
    requires e < ENVS && v < USER_PAGES && Pde(s, e, v / ENTRIES) != 0
    ensures IsPage(s, EntryPage(Pde(s, e, v / ENTRIES)))
    ensures var s' := SetWord(s, EntryPage(Pde(s, e, v / ENTRIES)), v % ENTRIES, w);
            && SameTargetsBut(s, s', PageSlot(e, v)) && Target(s', PageSlot(e, v)) == EntryTarget(w)
            && (forall e2, d2 :: DirSlot(e2, d2) in AllSlots() ==> Pde(s', e2, d2) == Pde(s, e2, d2))
            && (forall e2, v2 :: PageSlot(e2, v2) in AllSlots() ==>
                  FlatAt(s', e2, v2) == if e2 == e && v2 == v then w else FlatAt(s, e2, v2))
  {
    var d := v / ENTRIES;
    var pt := EntryPage(Pde(s, e, d));
    assert DirSlot(e, d) in AllSlots() && Target(s, DirSlot(e, d)) == pt;
    var s' := SetWord(s, pt, v % ENTRIES, w);
    forall e2, d2 | DirSlot(e2, d2) in AllSlots() ensures Pde(s', e2, d2) == Pde(s, e2, d2) {
      assert RootSlot(e2) in AllSlots() && Target(s, RootSlot(e2)) == Root(s, e2);
      assert RootSlot(e2) != DirSlot(e, d);
      assert Root(s, e2) != pt;
    }
    forall e2, v2 | PageSlot(e2, v2) in AllSlots()
      ensures FlatAt(s', e2, v2) == if e2 == e && v2 == v then w else FlatAt(s, e2, v2)
    {
      var d2 := v2 / ENTRIES;
      assert DirSlot(e2, d2) in AllSlots();
      if Pde(s, e2, d2) != 0 && EntryPage(Pde(s, e2, d2)) == pt {
        assert Target(s, DirSlot(e2, d2)) == pt;
        assert DirSlot(e2, d2) == DirSlot(e, d);
      }
    }
  }

  // ---------------------------------------------------------------- page_remove

  lemma DecrefTargets(s: Mem, p: int)
    ensures forall sl :: Target(Decref(s, p), sl) == Target(s, sl)
    ensures forall e, v :: FlatAt(Decref(s, p), e, v) == FlatAt(s, e, v)
    ensures forall e, d :: Pde(Decref(s, p), e, d) == Pde(s, e, d)
  {
    forall e, d ensures Pde(Decref(s, p), e, d) == Pde(s, e, d) {}
    forall e, v ensures FlatAt(Decref(s, p), e, v) == FlatAt(s, e, v) {}
  }

  lemma TablesUniqueKept(s: Mem, s': Mem, x: Slot)
    requires TargetsManaged(s) && TablesUnique(s) && x in AllSlots()
    requires SameTargetsBut(s, s', x) && Target(s', x) == NULL && |s'.words| == |s.words| && s'.reserved == s.reserved
    ensures TargetsManaged(s') && TablesUnique(s')
    ensures forall q :: q != NULL && IsTable(s', q) ==> IsTable(s, q)
  {
    forall sl, other | sl in AllSlots() && other in AllSlots() && !sl.PageSlot? && Target(s', sl) != NULL
      ensures Target(s', other) == Target(s', sl) ==> other == sl
    {
    }
  }

  /** One reference to `p` goes away, and its count with it. */
  lemma CountsAfterDrop(s: Mem, s': Mem, x: Slot, p: nat, loose: set<int>, held: int)
    requires CountsExact(s, held) && FreeExact(s, loose) && Managed(s, p) && p !in loose && |s.refs| == |s.words|
    requires x in AllSlots() && SameTargetsBut(s, s', x) && Target(s, x) == p && Target(s', x) == NULL
    requires |s'.words| == |s.words| && s'.reserved == s.reserved
    requires s'.refs == Decref(s, p).refs && s'.free == Decref(s, p).free
    ensures CountsExact(s', held) && FreeExact(s', loose)
  {
    assert x in Refs(s, p);
    assert s.refs[p] > 0 && p !in s.free;
    assert s'.refs == s.refs[p := s.refs[p] - 1];
    forall q | Managed(s', q) && q < |s'.refs|
      ensures s'.refs[q] == |Refs(s', q)| + (if q == held then 1 else 0) < REF_LIMIT
    {
      RefsStep(s, s', x, q);
    }
    FreeAfterDrop(s, s', p, loose);
  }

  lemma FreeAfterDrop(s: Mem, s': Mem, p: nat, loose: set<int>)
    requires FreeExact(s, loose) && Managed(s, p) && p !in loose && p < |s.refs| == |s.words| && s.refs[p] > 0
    requires |s'.words| == |s.words| && s'.reserved == s.reserved && s'.refs == s.refs[p := s.refs[p] - 1]
    requires s'.free == if s.refs[p] == 1 then [p] + s.free else s.free
    ensures FreeExact(s', loose)
  {
    assert p !in s.free;
    if s.refs[p] == 1 {
      assert forall q :: q in s'.free <==> q == p || q in s.free;
    }
  }

  /** Pages holding user data, and pages allocated but not mapped yet. */
  ghost predicate UserPage(s: Mem, p: int) {
    Managed(s, p) && !IsTable(s, p) && p !in s.free
  }

  ghost predicate SameContents(s: Mem, s': Mem) {
    |s'.words| == |s.words| && forall q :: UserPage(s, q) ==> s'.words[q] == s.words[q]
  }

  ghost predicate OnlyTablesWritten(s: Mem, s': Mem) {
    |s'.words| == |s.words| && forall q :: 0 <= q < |s.words| && !IsTable(s, q) ==> s'.words[q] == s.words[q]
  }

  /** The flat map of every environment is `s`'s, but for the entry of `e` at `v`, which is `w`. */
  ghost predicate FlatUpdated(s: Mem, s': Mem, e: int, v: int, w: nat) {
    forall e2, v2 :: PageSlot(e2, v2) in AllSlots() ==>
      FlatAt(s', e2, v2) == if e2 == e && v2 == v then w else FlatAt(s, e2, v2)
  }

  lemma RemoveFlat(s: Mem, e: nat, v: nat, loose: set<int>, held: int)
    requires Inv(s, loose, held) && e < ENVS && v < USER_PAGES
    ensures var s' := Remove(s, e, v);
            && FlatUpdated(s, s', e, v, 0) && SameTargetsBut(s, s', PageSlot(e, v))
            && Target(s', PageSlot(e, v)) == NULL && Shape(s') && EntriesPresent(s') && OnlyTablesWritten(s, s')
            && s'.roots == s.roots && s'.kern == s.kern && s'.reserved == s.reserved
  {
    var x, dir := PageSlot(e, v), DirSlot(e, v / ENTRIES);
    var w := FlatAt(s, e, v);
    assert x in AllSlots() && dir in AllSlots();
    if w != 0 {
      Referenced(s, x, loose, held);
      Referenced(s, dir, loose, held);
      var s1 := Decref(s, EntryPage(w));
      DecrefTargets(s, EntryPage(w));
      SetEntryFrame(s1, e, v, 0);
      assert IsTable(s, EntryPage(Pde(s, e, v / ENTRIES)));
    }
  }

  /** page_remove keeps every count and the free list exact; the flat map loses the entry of `e` at
      `v` and nothing else. */
  lemma RemoveCorrect(s: Mem, e: nat, v: nat, loose: set<int>, held: int)
    requires Inv(s, loose, held) && e < ENVS && v < USER_PAGES
    ensures Inv(Remove(s, e, v), loose, held)
    ensures FlatUpdated(s, Remove(s, e, v), e, v, 0)
    ensures OnlyTablesWritten(s, Remove(s, e, v)) && Remove(s, e, v).roots == s.roots
    ensures OtherTargets(s, Remove(s, e, v), e)
  {
    RemoveFlat(s, e, v, loose, held);
    var x := PageSlot(e, v);
    var s' := Remove(s, e, v);
    assert x in AllSlots();
    TablesUniqueKept(s, s', x);
    if FlatAt(s, e, v) != 0 {
      Referenced(s, x, loose, held);
      CountsAfterDrop(s, s', x, Target(s, x), loose, held);
    }
  }

  // ---------------------------------------------------------------- pgdir_walk

  lemma EnsureTableWords(s: Mem, e: nat, d: nat, loose: set<int>)
    requires Inv(s, loose, NULL) && e < ENVS && d < USER_DIRS && Root(s, e) != NULL
    requires Pde(s, e, d) == 0 && s.free != []
    ensures var s', pt := EnsureTable(s, e, d), s.free[0];
            && Managed(s, pt) && pt >= 0 && Shape(s')
            && (forall e2 :: Root(s', e2) == Root(s, e2))
            && (forall e2, d2 :: DirSlot(e2, d2) in AllSlots() ==>
                  Pde(s', e2, d2) == if e2 == e && d2 == d then Entry(pt, PTE_W + PTE_U) else Pde(s, e2, d2))
            && (forall q :: 0 <= q < |s.words| && q != pt && q != Root(s, e) ==> s'.words[q] == s.words[q])
            && s'.words[pt] == ZeroPage() && s'.refs == s.refs[pt := 1] && s'.free == s.free[1..]
            && |s'.words| == |s.words| && s'.reserved == s.reserved
  {
    var s', pt := EnsureTable(s, e, d), s.free[0];
    assert pt in s.free;
    forall e2 | 0 <= e2 < ENVS && Root(s, e2) != NULL
      ensures IsPage(s, Root(s, e2)) && Root(s, e2) != pt && (Root(s, e2) == Root(s, e) ==> e2 == e)
    {
      assert RootSlot(e2) in AllSlots() && RootSlot(e) in AllSlots();
      Referenced(s, RootSlot(e2), loose, NULL);
      assert Target(s, RootSlot(e2)) == Root(s, e2) && Target(s, RootSlot(e)) == Root(s, e);
    }
    assert forall p :: 0 <= p < |s'.words| ==> |s'.words[p]| == ENTRIES;
  }

  /** Creating an empty page table on demand changes no mapping of any environment. */
  lemma EnsureTableFlat(s: Mem, e: nat, d: nat, loose: set<int>)
    requires Inv(s, loose, NULL) && e < ENVS && d < USER_DIRS && Root(s, e) != NULL
    requires Pde(s, e, d) == 0 && s.free != []
    ensures var s' := EnsureTable(s, e, d);
            && (forall e2, v2 :: PageSlot(e2, v2) in AllSlots() ==> FlatAt(s', e2, v2) == FlatAt(s, e2, v2))
            && SameTargetsBut(s, s', DirSlot(e, d)) && Target(s', DirSlot(e, d)) == s.free[0]
  {
    EnsureTableWords(s, e, d, loose);
    var s', pt := EnsureTable(s, e, d), s.free[0];
    assert RootSlot(e) in AllSlots() && Target(s, RootSlot(e)) == Root(s, e);
    forall e2, v2 | PageSlot(e2, v2) in AllSlots() ensures FlatAt(s', e2, v2) == FlatAt(s, e2, v2) {
      var d2 := v2 / ENTRIES;
      var sl := DirSlot(e2, d2);
      assert sl in AllSlots();
      if Pde(s, e2, d2) != 0 {
        Referenced(s, sl, loose, NULL);
        assert sl != RootSlot(e) && Target(s, sl) == EntryPage(Pde(s, e2, d2));
      }
    }
  }

  lemma EnsureTableCorrect(s: Mem, e: nat, d: nat, loose: set<int>)
    requires Inv(s, loose, NULL) && e < ENVS && d < USER_DIRS && Root(s, e) != NULL
    ensures var s' := EnsureTable(s, e, d);
            && Inv(s', loose, NULL) && s'.roots == s.roots && OtherTargets(s, s', e)
            && (forall e2, v2 :: PageSlot(e2, v2) in AllSlots() ==> FlatAt(s', e2, v2) == FlatAt(s, e2, v2))
            && SameContents(s, s') && (forall p :: UserPage(s, p) ==> UserPage(s', p) && s'.refs[p] == s.refs[p])
            && (Pde(s', e, d) == 0 ==> s' == s && s.free == [])
  {
    if Pde(s, e, d) == 0 && s.free != [] {
      EnsureTableWords(s, e, d, loose);
      EnsureTableFlat(s, e, d, loose);
      var s', pt, x := EnsureTable(s, e, d), s.free[0], DirSlot(e, d);
      assert pt in s.free && x in AllSlots();
      assert RootSlot(e) in AllSlots() && Target(s, RootSlot(e)) == Root(s, e);
      NewReference(s, s', x, pt, loose);
    }
  }

  /** A slot that referred to nothing now refers to the page just taken from the free list. */
  lemma NewReference(s: Mem, s': Mem, x: Slot, p: int, loose: set<int>)
    requires TargetsManaged(s) && TablesUnique(s) && CountsExact(s, NULL) && FreeExact(s, loose)
    requires |s'.words| == |s.words| == |s.refs| && s'.reserved == s.reserved && s.free != [] && p == s.free[0]
    requires x in AllSlots() && SameTargetsBut(s, s', x) && Target(s, x) == NULL && Target(s', x) == p
    requires p < |s.refs| && p >= 0 && s'.refs == s.refs[p := 1] && s'.free == s.free[1..]
    ensures TargetsManaged(s') && TablesUnique(s') && CountsExact(s', NULL) && FreeExact(s', loose)
    ensures forall q :: q != p && IsTable(s', q) && q != NULL ==> IsTable(s, q)
  {
    assert p in s.free;
    assert Refs(s, p) == {};
    NoRefs(s, p);
    forall q | Managed(s', q) ensures s'.refs[q] == |Refs(s', q)| < REF_LIMIT {
      RefsStep(s, s', x, q);
    }
    assert forall q :: q in s'.free <==> q in s.free && q != p;
    forall sl, other | sl in AllSlots() && other in AllSlots() && !sl.PageSlot? && Target(s', sl) != NULL
      ensures Target(s', other) == Target(s', sl) ==> other == sl
    {
    }
  }

  // ---------------------------------------------------------------- page_insert

  lemma IncrefTargets(s: Mem, p: nat)
    ensures var s' := Incref(s, p);
            && (forall sl :: Target(s', sl) == Target(s, sl))
            && (forall e, v :: FlatAt(s', e, v) == FlatAt(s, e, v))
            && (forall e, d :: Pde(s', e, d) == Pde(s, e, d))
            && (forall q :: Refs(s', q) == Refs(s, q))
            && (forall q :: IsTable(s', q) == IsTable(s, q))
  {
    var s' := Incref(s, p);
    forall e, d ensures Pde(s', e, d) == Pde(s, e, d) {}
    forall e, v ensures FlatAt(s', e, v) == FlatAt(s, e, v) {}
    forall sl ensures Target(s', sl) == Target(s, sl) {}
    forall q ensures Refs(s', q) == Refs(s, q) {}
    SameTargetsSameTables(s, s');
    SameTargetsSameTables(s', s);
  }

  lemma SameTargetsSameTables(s: Mem, s': Mem)
    requires forall sl :: sl in AllSlots() && !sl.PageSlot? ==> Target(s', sl) == Target(s, sl)
    ensures forall q :: IsTable(s', q) ==> IsTable(s, q)
  {
    forall q | IsTable(s', q) ensures IsTable(s, q) {
      var sl :| sl in AllSlots() && !sl.PageSlot? && Target(s', sl) == q;
      assert Target(s, sl) == q;
    }
  }

  lemma IncrefCorrect(s: Mem, p: nat, loose: set<int>)
    requires Inv(s, loose, NULL) && UserPage(s, p) && s.refs[p] < REF_LIMIT - 1
    ensures Inv(Incref(s, p), loose - {p}, p)
  {
    var s' := Incref(s, p);
    IncrefTargets(s, p);
    assert s'.refs == s.refs[p := s.refs[p] + 1];
    assert CountsExact(s', p);
    assert FreeExact(s', loose - {p});
    assert TargetsManaged(s') && TablesUnique(s') && EntriesPresent(s');
  }

  /** The count taken for `p` in advance becomes the entry at `v`. */
  lemma WriteEntryCorrect(s: Mem, e: nat, v: nat, p: nat, perm: nat, loose: set<int>)
    requires Inv(s, loose, p) && e < ENVS && v < USER_PAGES && SamePage(p, perm)
    requires Pde(s, e, v / ENTRIES) != 0 && FlatAt(s, e, v) == 0
    ensures var s' := SetWord(s, EntryPage(Pde(s, e, v / ENTRIES)), v % ENTRIES, Entry(p, perm));
            && Inv(s', loose, NULL) && FlatUpdated(s, s', e, v, Entry(p, perm))
            && OnlyTablesWritten(s, s') && s'.roots == s.roots
            && OtherTargets(s, s', e)
  {
    var pt, x := EntryPage(Pde(s, e, v / ENTRIES)), PageSlot(e, v);
    var s' := SetWord(s, pt, v % ENTRIES, Entry(p, perm));
    SetEntryFrame(s, e, v, Entry(p, perm));
    assert x in AllSlots() && DirSlot(e, v / ENTRIES) in AllSlots();
    assert Target(s, DirSlot(e, v / ENTRIES)) == pt && IsTable(s, pt);
    forall q | Managed(s', q) ensures s'.refs[q] == |Refs(s', q)| < REF_LIMIT {
      RefsStep(s, s', x, q);
    }
    forall sl, other | sl in AllSlots() && other in AllSlots() && !sl.PageSlot? && Target(s', sl) != NULL
      ensures Target(s', other) == Target(s', sl) ==> other == sl
    {
      assert IsTable(s, Target(s, sl));
    }
  }

  /** page_insert once the page table is there. */
  function Replace(s: Mem, e: int, p: nat, v: int, perm: nat): Mem {
    SetWord(Remove(Incref(s, p), e, v), EntryPage(Pde(s, e, v / ENTRIES)), v % ENTRIES, Entry(p, perm))
  }

  lemma ReplaceCorrect(s: Mem, e: nat, p: nat, v: nat, perm: nat, loose: set<int>)
    requires Inv(s, loose, NULL) && e < ENVS && v < USER_PAGES && SamePage(p, perm) && Pde(s, e, v / ENTRIES) != 0
    requires UserPage(s, p) && s.refs[p] < REF_LIMIT - 1
    ensures var s' := Replace(s, e, p, v, perm);
            && Inv(s', loose - {p}, NULL) && FlatUpdated(s, s', e, v, Entry(p, perm)) && SameContents(s, s')
            && s'.roots == s.roots && OtherTargets(s, s', e)
  {
    var d := v / ENTRIES;
    var s2 := Incref(s, p);
    IncrefTargets(s, p);
    IncrefCorrect(s, p, loose);
    RemoveFlat(s2, e, v, loose - {p}, p);
    RemoveCorrect(s2, e, v, loose - {p}, p);
    var s3 := Remove(s2, e, v);
    assert DirSlot(e, d) in AllSlots() && Target(s2, DirSlot(e, d)) == Target(s3, DirSlot(e, d));
    assert Pde(s3, e, d) == Pde(s, e, d) by {
      assert EntryTarget(Pde(s3, e, d)) == EntryTarget(Pde(s, e, d));
    }
    assert PageSlot(e, v) in AllSlots();
    WriteEntryCorrect(s3, e, v, p, perm, loose - {p});
    SameTargetsSameTables(s2, s3);
  }

  /** page_insert maps `p` at `v` in `e` and changes no other entry of any environment, keeps every count
      and the free list exact - also when `p` was mapped at `v` already - and fails without effect. */
  lemma InsertCorrect(s: Mem, e: nat, p: nat, v: nat, perm: nat, loose: set<int>)
    requires Inv(s, loose, NULL) && e < ENVS && v < USER_PAGES && SamePage(p, perm) && Root(s, e) != NULL
    requires UserPage(s, p) && s.refs[p] < REF_LIMIT - 1
    ensures var (s', ok) := Insert(s, e, p, v, perm);
            && s'.roots == s.roots && OtherTargets(s, s', e)
            && (if ok then
                  && Inv(s', loose - {p}, NULL) && FlatUpdated(s, s', e, v, Entry(p, perm)) && SameContents(s, s')
                else
                  s' == s && s.free == [] && Pde(s, e, v / ENTRIES) == 0)
  {
    var s1 := EnsureTable(s, e, v / ENTRIES);
    EnsureTableCorrect(s, e, v / ENTRIES, loose);
    if Pde(s1, e, v / ENTRIES) != 0 {
      ReplaceCorrect(s1, e, p, v, perm, loose);
    }
  }

  // ---------------------------------------------------------------- the sixteen-bit count

  lemma ReplaceTargets(s: Mem, e: nat, p: nat, v: nat, perm: nat, loose: set<int>)
    requires Inv(s, loose, NULL) && e < ENVS && v < USER_PAGES && Pde(s, e, v / ENTRIES) != 0
    requires UserPage(s, p)
    ensures var s' := Replace(s, e, p, v, perm);
            && Shape(s') && SameTargetsBut(s, s', PageSlot(e, v))
            && Target(s', PageSlot(e, v)) == BitOr(p, perm / 4096)
            && FlatUpdated(s, s', e, v, Entry(p, perm))
            && (forall e2, d2 :: DirSlot(e2, d2) in AllSlots() ==> Pde(s', e2, d2) == Pde(s, e2, d2))
    ensures var s', q := Replace(s, e, p, v, perm), Lookup(s, e, v);
            s'.refs == (if q == NULL then Incref(s, p) else Decref(Incref(s, p), q)).refs &&
            s'.free == (if q == NULL then s else Decref(Incref(s, p), q)).free
  {
    hide BitOr, CountsExact, FreeExact, EntriesPresent, IsTable, Refs;
    IncrefTargets(s, p);
    var s2 := Incref(s, p);
    var s3 := Decref(s2, Lookup(s, e, v));
    DecrefTargets(s2, Lookup(s, e, v));
    assert PageSlot(e, v) in AllSlots() && DirSlot(e, v / ENTRIES) in AllSlots();
    SetEntryFrame(s2, e, v, Entry(p, perm));
    SetEntryFrame(s3, e, v, 0);
    SetEntryFrame(SetWord(s3, EntryPage(Pde(s, e, v / ENTRIES)), v % ENTRIES, 0), e, v, Entry(p, perm));
  }

  /** Replacing an entry writes one page table and nothing else. */
  lemma ReplaceContents(s: Mem, e: nat, p: nat, v: nat, perm: nat, loose: set<int>)
    requires Inv(s, loose, NULL) && e < ENVS && v < USER_PAGES && Pde(s, e, v / ENTRIES) != 0
    ensures SameContents(s, Replace(s, e, p, v, perm)) && Replace(s, e, p, v, perm).roots == s.roots
  {
    var dir := DirSlot(e, v / ENTRIES);
    assert dir in AllSlots() && Target(s, dir) == EntryPage(Pde(s, e, v / ENTRIES));
    assert IsTable(s, EntryPage(Pde(s, e, v / ENTRIES)));
  }

  /** A page table is there: page_insert keeps the counts exact exactly when `perm` leaves the page number as it
      is and the count has room for one more reference, or the page is mapped at `v` already. */
  lemma ReplaceKeepsIff(s: Mem, e: nat, p: nat, v: nat, perm: nat, loose: set<int>)
    requires Inv(s, loose, NULL) && e < ENVS && v < USER_PAGES && Pde(s, e, v / ENTRIES) != 0 && UserPage(s, p)
    ensures Inv(Replace(s, e, p, v, perm), loose - {p}, NULL) <==>
            SamePage(p, perm) && (s.refs[p] < REF_LIMIT - 1 || Lookup(s, e, v) == p)
  {
    assert p < |s.refs|;
    hide Inv, Replace, FlatAt, Incref, Decref;
    if SamePage(p, perm) && s.refs[p] < REF_LIMIT - 1 {
      ReplaceCorrect(s, e, p, v, perm, loose);
    } else {
      ReplaceTargets(s, e, p, v, perm, loose);
      if SamePage(p, perm) && Lookup(s, e, v) == p {
        ReplaceInPlace(s, e, p, v, perm, loose);
      } else {
        ReplaceMiscounts(s, e, p, v, perm, loose);
      }
    }
  }

  lemma CountAfter(s: Mem, p: nat, q: int)
    requires p < |s.refs| && s.refs[p] < REF_LIMIT
    ensures (if q == NULL then Incref(s, p) else Decref(Incref(s, p), q)).refs[p] ==
            if q == p then s.refs[p] else Inc16(s.refs[p])
  {
  }

  lemma CountOf(s: Mem, p: nat, loose: set<int>)
    requires Inv(s, loose, NULL) && Managed(s, p)
    ensures p < |s.refs| && s.refs[p] == |Refs(s, p)| < REF_LIMIT
  {
  }

  /** The count of `p` goes up by one more than its references do. */
  lemma ReplaceMiscounts(s: Mem, e: nat, p: nat, v: nat, perm: nat, loose: set<int>)
    requires Inv(s, loose, NULL) && e < ENVS && v < USER_PAGES && Pde(s, e, v / ENTRIES) != 0 && UserPage(s, p)
    requires p < |s.refs|
    requires !SamePage(p, perm) || (s.refs[p] == REF_LIMIT - 1 && Lookup(s, e, v) != p)
    ensures !Inv(Replace(s, e, p, v, perm), loose - {p}, NULL)
  {
    hide Inv, Replace, FlatAt, Pde, Refs, SameTargetsBut, FlatUpdated, BitOr, Incref, Decref, Shape;
    var s', x, q := Replace(s, e, p, v, perm), PageSlot(e, v), Lookup(s, e, v);
    ReplaceTargets(s, e, p, v, perm, loose);
    SameFrameReplaced(s, e, p, v, perm);
    CountOf(s, p, loose);
    CountAfter(s, p, q);
    assert x in AllSlots() && Target(s, x) == q;
    RefsStep(s, s', x, p);
    if Inv(s', loose - {p}, NULL) { CountOf(s', p, loose - {p}); }
  }

  /** Counts, free list and targets are back where they were. */
  lemma ReplaceInPlace(s: Mem, e: nat, p: nat, v: nat, perm: nat, loose: set<int>)
    requires Inv(s, loose, NULL) && e < ENVS && v < USER_PAGES && Pde(s, e, v / ENTRIES) != 0 && UserPage(s, p)
    requires SamePage(p, perm) && Lookup(s, e, v) == p
    ensures Inv(Replace(s, e, p, v, perm), loose - {p}, NULL)
  {
    hide Replace, FlatAt, Pde, BitOr;
    var s', x := Replace(s, e, p, v, perm), PageSlot(e, v);
    ReplaceTargets(s, e, p, v, perm, loose);
    assert x in AllSlots() && Target(s, x) == p;
    Referenced(s, x, loose, NULL);
    SameFrameReplaced(s, e, p, v, perm);
    assert loose - {p} == loose;
    assert s'.refs == s.refs && s'.free == s.free;
    forall q ensures Refs(s', q) == Refs(s, q) {}
  }

  lemma SameFrameReplaced(s: Mem, e: int, p: nat, v: int, perm: nat)
    ensures SameFrame(s, Replace(s, e, p, v, perm))
  {
  }

  /** For every `perm`: page_insert keeps counts and free list exact exactly when it fails, or `perm` leaves the
      page number as it is and the 16-bit count has room for one more reference, or the page is mapped at `v`
      already. */
  lemma InsertKeepsIff(s: Mem, e: nat, p: nat, v: nat, perm: nat, loose: set<int>)
    requires Inv(s, loose, NULL) && e < ENVS && v < USER_PAGES && Root(s, e) != NULL && UserPage(s, p)
    ensures var (s', ok) := Insert(s, e, p, v, perm);
            && (!ok ==> s' == s) && (ok <==> s.free != [] || Pde(s, e, v / ENTRIES) != 0)
            && (Inv(s', if ok then loose - {p} else loose, NULL) <==>
                !ok || (SamePage(p, perm) && (s.refs[p] < REF_LIMIT - 1 || Lookup(s, e, v) == p)))
            && (ok ==> FlatUpdated(s, s', e, v, Entry(p, perm)) && SameContents(s, s'))
            && s'.roots == s.roots && OtherTargets(s, s', e)
  {
    hide Inv, UserPage, SetWord, Incref, AfterAlloc, Remove, FlatAt;
    var d := v / ENTRIES;
    var s1 := EnsureTable(s, e, d);
    EnsureTableCorrect(s, e, d, loose);
    assert PageSlot(e, v) in AllSlots();
    if Pde(s1, e, d) != 0 {
      ReplaceKeepsIff(s1, e, p, v, perm, loose);
      ReplaceTargets(s1, e, p, v, perm, loose);
      ReplaceContents(s1, e, p, v, perm, loose);
      NoTableNoPage(s, e, v);
    }
  }

  /** At 2^16 - 1 references: exactly when the page is mapped where it is mapped already, under the same number,
      or the call fails for want of a page table. */
  lemma InsertAtLimit(s: Mem, e: nat, p: nat, v: nat, perm: nat, loose: set<int>)
    requires Inv(s, loose, NULL) && e < ENVS && v < USER_PAGES && Root(s, e) != NULL
    requires UserPage(s, p) && s.refs[p] == REF_LIMIT - 1
    ensures Inv(Insert(s, e, p, v, perm).0, loose, NULL) <==>
            (SamePage(p, perm) && Lookup(s, e, v) == p) || (s.free == [] && Pde(s, e, v / ENTRIES) == 0)
  {
    InsertKeepsIff(s, e, p, v, perm, loose);
    assert loose - {p} == loose;
  }

  lemma NoTableNoPage(s: Mem, e: int, v: int)
    ensures Pde(s, e, v / ENTRIES) == 0 ==> Lookup(s, e, v) == NULL
  {
  }
}
