/** Whole address spaces: env_setup_vm, env_free, and what a life between the two leaves behind. */
module AddressSpace {
  import opened IntrusiveList
  import opened PageModel
  import opened PageProofs

  // ---------------------------------------------------------------- env_setup_vm

  /** Environment `e` has no address space in `s`: nothing is mapped in it. */
  lemma NoSpace(s: Mem, e: int)
    requires Root(s, e) == NULL
    ensures forall v :: FlatAt(s, e, v) == 0
    ensures forall d :: Pde(s, e, d) == 0
  {
    forall v ensures FlatAt(s, e, v) == 0 { assert Pde(s, e, v / ENTRIES) == 0; }
  }

  lemma SetupVmWords(s: Mem, e: nat, loose: set<int>)
    requires Inv(s, loose, NULL) && e < ENVS && Root(s, e) == NULL && s.free != []
    ensures var s', p := SetupVm(s, e).0, s.free[0];
            && Managed(s, p) && p >= 0 && Shape(s') && Root(s', e) == p
            && (forall e2 :: e2 != e ==> Root(s', e2) == Root(s, e2))
            && (forall e2, d2 :: DirSlot(e2, d2) in AllSlots() ==> Pde(s', e2, d2) == Pde(s, e2, d2))
            && (forall q :: 0 <= q < |s.words| && q != p ==> s'.words[q] == s.words[q])
            && s'.refs == s.refs[p := 1] && s'.free == s.free[1..]
            && |s'.words| == |s.words| && s'.reserved == s.reserved && s'.kern == s.kern
  {
    var s', p := SetupVm(s, e).0, s.free[0];
    assert p in s.free;
    NoSpace(s, e);
    forall e2 | 0 <= e2 < ENVS && Root(s, e2) != NULL ensures Root(s, e2) != p {
      assert RootSlot(e2) in AllSlots();
      Referenced(s, RootSlot(e2), loose, NULL);
      assert Target(s, RootSlot(e2)) == Root(s, e2);
    }
    assert forall q :: 0 <= q < |s'.words| ==> |s'.words[q]| == ENTRIES;
  }

  /** env_setup_vm gives `e` an address space with nothing mapped below UTOP; it fails only when no page
      is free, and then changes nothing. */
  lemma SetupVmCorrect(s: Mem, e: nat, loose: set<int>)
    requires Inv(s, loose, NULL) && e < ENVS && Root(s, e) == NULL
    ensures var (s', ok) := SetupVm(s, e);
            if ok then
              && Inv(s', loose, NULL) && Root(s', e) != NULL
              && (forall e2 :: e2 != e ==> Root(s', e2) == Root(s, e2))
              && (forall e2, v :: PageSlot(e2, v) in AllSlots() ==> FlatAt(s', e2, v) == FlatAt(s, e2, v))
              && (forall v :: PageSlot(e, v) in AllSlots() ==> FlatAt(s', e, v) == 0)
              && SameContents(s, s') && (forall p :: UserPage(s, p) ==> UserPage(s', p) && s'.refs[p] == s.refs[p])
              && OtherTargets(s, s', e)
            else s' == s && s.free == []
  {
    NoSpace(s, e);
    if s.free != [] {
      assert s.free[0] in s.free;
      SetupVmWords(s, e, loose);
      var s', p, x := SetupVm(s, e).0, s.free[0], RootSlot(e);
      assert x in AllSlots();
      forall e2, v | PageSlot(e2, v) in AllSlots() ensures FlatAt(s', e2, v) == FlatAt(s, e2, v) {
        var sl := DirSlot(e2, v / ENTRIES);
        assert sl in AllSlots();
        if Pde(s, e2, v / ENTRIES) != 0 {
          Referenced(s, sl, loose, NULL);
          assert Target(s, sl) == EntryPage(Pde(s, e2, v / ENTRIES));
        }
      }
      assert Target(s, x) == Root(s, e) && Target(s', x) == Root(s', e);
      assert SameTargetsBut(s, s', x);
      NewReference(s, s', x, p, loose);
    }
  }

  // ---------------------------------------------------------------- env_free

  /** Same environments, and the flat map of every other environment is the same. */
  ghost predicate OthersKept(s: Mem, s': Mem, e: int) {
    && OtherTargets(s, s', e)
    && (forall e2 :: e2 != e ==> Root(s', e2) == Root(s, e2))
    && (forall e2, v :: PageSlot(e2, v) in AllSlots() && e2 != e ==> FlatAt(s', e2, v) == FlatAt(s, e2, v))
  }

  /** From `s` to `s'` environment `e` only gave things up. */
  ghost predicate Shrunk(s: Mem, s': Mem, e: int) {
    && OthersKept(s, s', e) && OnlyTablesWritten(s, s')
    && (forall q :: q != NULL && IsTable(s', q) ==> IsTable(s, q))
  }

  lemma ShrunkTrans(s: Mem, s1: Mem, s2: Mem, e: int)
    requires Shrunk(s, s1, e) && Shrunk(s1, s2, e)
    ensures Shrunk(s, s2, e)
  {
    forall q | 0 <= q < |s.words| && !IsTable(s, q) ensures s2.words[q] == s.words[q] {
      assert !IsTable(s1, q);
    }
  }

  lemma FreeEntryStep(s: Mem, e: nat, v: nat, loose: set<int>)
    requires Inv(s, loose, NULL) && e < ENVS && v < USER_PAGES
    ensures var s' := if Present(FlatAt(s, e, v)) then Remove(s, e, v) else s;
            && Inv(s', loose, NULL) && Shrunk(s, s', e) && s'.roots == s.roots && FlatUpdated(s, s', e, v, 0)
            && (forall d :: 0 <= d < USER_DIRS ==> Pde(s', e, d) == Pde(s, e, d))
  {
    RemoveFlat(s, e, v, loose, NULL);
    RemoveCorrect(s, e, v, loose, NULL);
    var s' := Remove(s, e, v);
    assert PageSlot(e, v) in AllSlots();
    SameTargetsSameTables(s, s');
    forall d | 0 <= d < USER_DIRS ensures Pde(s', e, d) == Pde(s, e, d) {
      assert DirSlot(e, d) in AllSlots();
      assert Target(s', DirSlot(e, d)) == Target(s, DirSlot(e, d));
    }
  }

  ghost predicate Cleared(s: Mem, s': Mem, e: int, lo: int, hi: int) {
    forall v :: PageSlot(e, v) in AllSlots() ==> FlatAt(s', e, v) == if lo <= v < hi then 0 else FlatAt(s, e, v)
  }

  lemma NothingShrunk(s: Mem, e: int, lo: int)
    ensures Shrunk(s, s, e) && Cleared(s, s, e, lo, lo)
  {
  }

  lemma ClearedStep(s: Mem, s1: Mem, s2: Mem, e: int, lo: int, hi: int)
    requires Cleared(s, s1, e, lo, hi) && FlatUpdated(s1, s2, e, hi, 0) && lo <= hi
    ensures Cleared(s, s2, e, lo, hi + 1)
  {
  }

  lemma {:induction false} FreeTableCorrect(s: Mem, e: nat, first: nat, n: nat, loose: set<int>)
    requires Inv(s, loose, NULL) && e < ENVS && first + n <= USER_PAGES
    ensures var s' := FreeTable(s, e, first, n);
            && Inv(s', loose, NULL) && Shrunk(s, s', e) && s'.roots == s.roots && Cleared(s, s', e, first, first + n)
            && (forall i :: 0 <= i < USER_DIRS ==> Pde(s', e, i) == Pde(s, e, i))
  {
    hide Inv, Remove, Shrunk, Cleared, FlatUpdated, FlatAt;
    if n == 0 {
      NothingShrunk(s, e, first);
    } else {
      FreeTableCorrect(s, e, first, n - 1, loose);
      var s1, v := FreeTable(s, e, first, n - 1), first + n - 1;
      FreeEntryStep(s1, e, v, loose);
      ShrunkTrans(s, s1, FreeTable(s, e, first, n), e);
      ClearedStep(s, s1, FreeTable(s, e, first, n), e, first, v);
    }
  }

  /** A page table without entries goes: its directory entry and its page. */
  lemma DropTableCorrect(s: Mem, e: nat, d: nat, loose: set<int>)
    requires Inv(s, loose, NULL) && e < ENVS && d < USER_DIRS && Pde(s, e, d) != 0
    requires forall v :: PageSlot(e, v) in AllSlots() && v / ENTRIES == d ==> FlatAt(s, e, v) == 0
    ensures var s' := Decref(SetWord(s, Root(s, e), d, 0), EntryPage(Pde(s, e, d)));
            && Inv(s', loose, NULL) && s'.roots == s.roots && Shrunk(s, s', e)
            && (forall e2, d2 :: DirSlot(e2, d2) in AllSlots() ==>
                  Pde(s', e2, d2) == if e2 == e && d2 == d then 0 else Pde(s, e2, d2))
  {
    var pt, x, r := EntryPage(Pde(s, e, d)), DirSlot(e, d), Root(s, e);
    assert x in AllSlots() && RootSlot(e) in AllSlots();
    assert Target(s, RootSlot(e)) == r && Target(s, x) == pt && r != NULL;
    Referenced(s, x, loose, NULL);
    Referenced(s, RootSlot(e), loose, NULL);
    assert IsTable(s, r);
    var s1 := SetWord(s, r, d, 0);
    var s' := Decref(s1, pt);
    DropTableWords(s, e, d, loose);
    assert SameTargetsBut(s, s', x);
    TablesUniqueKept(s, s', x);
    CountsAfterDrop(s, s', x, pt, loose, NULL);
  }

  lemma DropTableWords(s: Mem, e: nat, d: nat, loose: set<int>)
    requires Inv(s, loose, NULL) && e < ENVS && d < USER_DIRS && Pde(s, e, d) != 0
    requires forall v :: PageSlot(e, v) in AllSlots() && v / ENTRIES == d ==> FlatAt(s, e, v) == 0
    ensures var s' := Decref(SetWord(s, Root(s, e), d, 0), EntryPage(Pde(s, e, d)));
            && Shape(s')
            && (forall e2, v :: PageSlot(e2, v) in AllSlots() ==> FlatAt(s', e2, v) == FlatAt(s, e2, v))
            && (forall e2, d2 :: DirSlot(e2, d2) in AllSlots() ==>
                  Pde(s', e2, d2) == if e2 == e && d2 == d then 0 else Pde(s, e2, d2))
  {
    var r := Root(s, e);
    var s1 := SetWord(s, r, d, 0);
    DecrefTargets(s1, EntryPage(Pde(s, e, d)));
    assert RootSlot(e) in AllSlots() && Target(s, RootSlot(e)) == r && r != NULL;
    Referenced(s, RootSlot(e), loose, NULL);
    forall e2, d2 | DirSlot(e2, d2) in AllSlots()
      ensures Pde(s1, e2, d2) == if e2 == e && d2 == d then 0 else Pde(s, e2, d2)
    {
      assert RootSlot(e2) in AllSlots() && Target(s, RootSlot(e2)) == Root(s, e2);
      assert Root(s, e2) == r ==> RootSlot(e2) == RootSlot(e);
    }
    forall e2, v | PageSlot(e2, v) in AllSlots() ensures FlatAt(s1, e2, v) == FlatAt(s, e2, v) {
      var sl := DirSlot(e2, v / ENTRIES);
      assert sl in AllSlots() && sl != RootSlot(e);
      assert Pde(s, e2, v / ENTRIES) != 0 ==> Target(s, sl) == EntryPage(Pde(s, e2, v / ENTRIES));
    }
  }

  lemma FreeDirStep(s: Mem, e: nat, d: nat, loose: set<int>)
    requires Inv(s, loose, NULL) && e < ENVS && d < USER_DIRS && Pde(s, e, d) != 0
    ensures var s' := Decref(SetWord(FreeTable(s, e, d * ENTRIES, ENTRIES), Root(s, e), d, 0), EntryPage(Pde(s, e, d)));
            && Inv(s', loose, NULL) && Shrunk(s, s', e) && s'.roots == s.roots
            && (forall i :: 0 <= i < USER_DIRS ==> Pde(s', e, i) == if i == d then 0 else Pde(s, e, i))
  {
    FreeTableCorrect(s, e, d * ENTRIES, ENTRIES, loose);
    var s1 := FreeTable(s, e, d * ENTRIES, ENTRIES);
    assert Root(s1, e) == Root(s, e) && Pde(s1, e, d) == Pde(s, e, d);
    assert forall i :: 0 <= i < USER_DIRS ==> DirSlot(e, i) in AllSlots();
    DropTableCorrect(s1, e, d, loose);
    var s' := Decref(SetWord(s1, Root(s, e), d, 0), EntryPage(Pde(s, e, d)));
    ShrunkTrans(s, s1, s', e);
  }

  lemma DirPresent(s: Mem, e: nat, d: nat, loose: set<int>)
    requires Inv(s, loose, NULL) && e < ENVS && d < USER_DIRS
    ensures Present(Pde(s, e, d)) <==> Pde(s, e, d) != 0
  {
    assert DirSlot(e, d) in AllSlots();
  }

  lemma {:induction false} FreeDirsCorrect(s: Mem, e: nat, n: nat, loose: set<int>)
    requires Inv(s, loose, NULL) && e < ENVS && n <= USER_DIRS
    ensures var s' := FreeDirs(s, e, n);
            && Inv(s', loose, NULL) && Shrunk(s, s', e) && s'.roots == s.roots
            && (forall d :: 0 <= d < n ==> Pde(s', e, d) == 0)
            && (forall d :: n <= d < USER_DIRS ==> Pde(s', e, d) == Pde(s, e, d))
  {
    hide Inv, Remove, Shrunk, FlatAt, FreeTable, SetWord, Decref;
    NothingShrunk(s, e, 0);
    if n > 0 {
      FreeDirsCorrect(s, e, n - 1, loose);
      var s1, d := FreeDirs(s, e, n - 1), n - 1;
      DirPresent(s1, e, d, loose);
      if Present(Pde(s1, e, d)) {
        FreeDirStep(s1, e, d, loose);
        ShrunkTrans(s, s1, FreeDirs(s, e, n), e);
      }
    }
  }

  lemma DropRootWords(s: Mem, e: nat, p: int)
    requires Shape(s) && e < ENVS && (forall d :: 0 <= d < USER_DIRS ==> Pde(s, e, d) == 0)
    ensures var s' := Decref(s.(roots := s.roots[e := NULL]), p);
            && Shape(s')
            && (forall e2 :: Root(s', e2) == if e2 == e then NULL else Root(s, e2))
            && (forall e2, d :: DirSlot(e2, d) in AllSlots() ==> Pde(s', e2, d) == Pde(s, e2, d))
            && (forall e2, v :: PageSlot(e2, v) in AllSlots() ==> FlatAt(s', e2, v) == FlatAt(s, e2, v))
  {
    var s1 := s.(roots := s.roots[e := NULL]);
    DecrefTargets(s1, p);
    NoSpace(s1, e);
    forall e2, d | DirSlot(e2, d) in AllSlots() ensures Pde(s1, e2, d) == Pde(s, e2, d) {}
    forall e2, v | PageSlot(e2, v) in AllSlots() ensures FlatAt(s1, e2, v) == FlatAt(s, e2, v) {
      assert DirSlot(e2, v / ENTRIES) in AllSlots();
    }
  }

  /** env_free gives up every mapping, every page table and the directory of `e`; every other environment
      keeps each of its mappings, and counts and free list stay exact. */
  lemma FreeEnvCorrect(s: Mem, e: nat, loose: set<int>)
    requires Inv(s, loose, NULL) && e < ENVS && Root(s, e) != NULL
    ensures Inv(FreeEnv(s, e), loose, NULL) && Root(FreeEnv(s, e), e) == NULL && Shrunk(s, FreeEnv(s, e), e)
  {
    FreeDirsCorrect(s, e, USER_DIRS, loose);
    var s1 := FreeDirs(s, e, USER_DIRS);
    var s', x, p := FreeEnv(s, e), RootSlot(e), Root(s1, e);
    assert x in AllSlots() && Target(s1, x) == p;
    Referenced(s1, x, loose, NULL);
    DropRootWords(s1, e, p);
    assert SameTargetsBut(s1, s', x);
    TablesUniqueKept(s1, s', x);
    CountsAfterDrop(s1, s', x, p, loose, NULL);
    ShrunkTrans(s, s1, s', e);
  }
}
