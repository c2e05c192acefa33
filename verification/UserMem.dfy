/** user_mem_check: may an environment touch a range of addresses? */
module UserMem {
  import opened IntrusiveList
  import opened PageModel
  import opened PageProofs
  import opened Pmap

  const PGSIZE := 4096
  const UTOP := USER_PAGES * PGSIZE
  const WORD := 0x1_0000_0000

  /** Every flag bit of `perm` is set in `w`. */
  predicate HasFlags(w: nat, perm: nat)
    decreases perm
  {
    perm == 0 || ((perm % 2 == 1 ==> w % 2 == 1) && HasFlags(w / 2, perm / 2))
  }

  function WithPresent(perm: nat): nat { if perm % 2 == 1 then perm else perm + PTE_P }

  predicate Grants(s: Mem, e: int, v: int, perm: nat) { HasFlags(FlatAt(s, e, v), WithPresent(perm)) }

  /** ROUNDUP(va + len, PGSIZE) in 32-bit arithmetic. */
  function RangeEnd(va: nat, len: nat): nat { (va + len + PGSIZE - 1) % WORD / PGSIZE * PGSIZE }

  /** What user_mem_check accepts. */
  predicate Accepted(s: Mem, e: int, va: nat, len: nat, perm: nat) {
    RangeEnd(va, len) <= UTOP && forall v :: va / PGSIZE <= v < RangeEnd(va, len) / PGSIZE ==> Grants(s, e, v, perm)
  }

  method UserMemCheck(m: Memory, e: nat, va: nat, len: nat, perm: nat, ghost loose: set<int>)
    returns (ok: bool, bad: nat)
    requires m.Valid(loose, NULL) && e < ENVS && m.roots[e] != NULL && va < WORD && len < WORD
    modifies m, m.link, m.refs, m.words
    ensures m.Valid(loose, NULL) && m.Snap() == old(m.Snap())
    ensures ok <==> Accepted(m.Snap(), e, va, len, perm)
    ensures !ok && RangeEnd(va, len) > UTOP ==> bad == va
    ensures !ok && RangeEnd(va, len) <= UTOP ==>
              var v := bad / PGSIZE;
              && va / PGSIZE <= v < RangeEnd(va, len) / PGSIZE && !Grants(m.Snap(), e, v, perm)
              && bad == (if v == va / PGSIZE then va else v * PGSIZE)
              && forall u :: va / PGSIZE <= u < v ==> Grants(m.Snap(), e, u, perm)
  {
    hide Inv, FlatAt, HasFlags, RangeEnd;
    var end := RangeEnd(va, len);
    EndOfPage(va, len);
    if end > UTOP { return false, va; }
    ghost var first, last := va / PGSIZE, end / PGSIZE;
    var a := va / PGSIZE * PGSIZE;
    ghost var v := first;
    bad := 0;
    while a < end
      invariant a == v * PGSIZE && m.Valid(loose, NULL) && m.Snap() == old(m.Snap()) && first <= v
      invariant forall u :: first <= u < v ==> Grants(m.Snap(), e, u, perm)
      decreases last - v
    {
      PageOf(a, v);
      var table := m.PgdirWalk(e, a / PGSIZE, false, loose, NULL);
      WalkReadsFlat(m.Snap(), e, a / PGSIZE, perm);
      if table == NULL || !HasFlags(m.words[table][a / PGSIZE % ENTRIES], WithPresent(perm)) {
        BadPage(va, v);
        return false, if a > va then a else va;
      }
      a := a + PGSIZE;
      v := v + 1;
    }
    ok := true;
  }

  lemma PageOf(a: nat, v: nat)
    requires a == v * PGSIZE
    ensures a / PGSIZE == v
  {
  }

  lemma EndOfPage(va: nat, len: nat)
    ensures RangeEnd(va, len) == RangeEnd(va, len) / PGSIZE * PGSIZE
  {
    PageOf(RangeEnd(va, len), (va + len + PGSIZE - 1) % WORD / PGSIZE);
  }

  lemma BadPage(va: nat, v: nat)
    requires va / PGSIZE <= v
    ensures v * PGSIZE > va ==> v * PGSIZE / PGSIZE == v && v != va / PGSIZE
    ensures v * PGSIZE <= va ==> v == va / PGSIZE
  {
    PageOf(v * PGSIZE, v);
  }

  lemma WalkReadsFlat(s: Mem, e: nat, v: nat, perm: nat)
    ensures var d := Pde(s, e, v / ENTRIES);
            if d == 0 then !Grants(s, e, v, perm)
            else Grants(s, e, v, perm) <==> HasFlags(Word(s, EntryPage(d), v % ENTRIES), WithPresent(perm))
  {
  }

  predicate MayUse(s: Mem, e: int, a: nat, perm: nat) {
    a < UTOP && Grants(s, e, a / PGSIZE, perm)
  }

  /** Every byte of the range may be used. */
  ghost predicate AllUsable(s: Mem, e: int, va: nat, len: nat, perm: nat) {
    forall a :: va <= a < va + len ==> MayUse(s, e, a, perm)
  }

  /** The rounded end fits an address: the test is the one wanted. */
  lemma FitsCoversRange(s: Mem, e: nat, va: nat, len: nat, perm: nat)
    requires 0 < len && va + len + PGSIZE - 1 < WORD
    ensures Accepted(s, e, va, len, perm) <==> AllUsable(s, e, va, len, perm)
  {
    var end := RangeEnd(va, len);
    hide Grants;
    assert va + len <= end < va + len + PGSIZE && end % PGSIZE == 0;
    forall a | va <= a < va + len ensures va / PGSIZE <= a / PGSIZE < end / PGSIZE {}
    if AllUsable(s, e, va, len, perm) {
      assert MayUse(s, e, va + len - 1, perm);
      forall v | va / PGSIZE <= v < end / PGSIZE ensures Grants(s, e, v, perm) {
        var a := if v * PGSIZE < va then va else v * PGSIZE;
        assert va <= a < va + len && a / PGSIZE == v;
        assert MayUse(s, e, a, perm);
      }
    }
  }

  /** The rounded end of the range passes 2^32. */
  predicate Wraps(va: nat, len: nat) { va + len + PGSIZE - 1 >= WORD }

  /** A range whose rounded end passes 2^32 ends above UTOP. */
  lemma WrapNotUsable(s: Mem, e: nat, va: nat, len: nat, perm: nat)
    requires 0 < len && Wraps(va, len)
    ensures !AllUsable(s, e, va, len, perm)
  {
    assert !MayUse(s, e, va + len - 1, perm);
  }

  /** For every range of at least one byte the test agrees with the use of its bytes exactly when the rounded end
      does not wrap, or the wrapped end still lies above UTOP, or a page below it refuses the access. */
  lemma CheckCoversRange(s: Mem, e: nat, va: nat, len: nat, perm: nat)
    requires 0 < len < WORD && va < WORD
    ensures (Accepted(s, e, va, len, perm) <==> AllUsable(s, e, va, len, perm)) <==>
            !Wraps(va, len) || RangeEnd(va, len) > UTOP ||
            exists v :: va / PGSIZE <= v < RangeEnd(va, len) / PGSIZE && !Grants(s, e, v, perm)
  {
    hide Grants, AllUsable;
    if Wraps(va, len) {
      WrapNotUsable(s, e, va, len, perm);
    } else {
      FitsCoversRange(s, e, va, len, perm);
    }
  }

  /** Nothing below the wrapped end is looked at when it does not pass the page of `va`: such a range is accepted
      whatever is mapped. */
  lemma WrapAcceptsAll(s: Mem, e: nat, va: nat, len: nat, perm: nat)
    requires 0 < len < WORD && va < WORD && Wraps(va, len) && RangeEnd(va, len) <= UTOP
    requires RangeEnd(va, len) / PGSIZE <= va / PGSIZE
    ensures Accepted(s, e, va, len, perm) && !AllUsable(s, e, va, len, perm)
  {
    WrapNotUsable(s, e, va, len, perm);
  }

  /** All addresses from 0x1000 on, but the last: accepted in every memory. */
  lemma WholeSpaceAccepted(s: Mem, e: nat, perm: nat)
    ensures Accepted(s, e, 0x1000, 0xffff_ffff, perm) && !AllUsable(s, e, 0x1000, 0xffff_ffff, perm)
  {
    assert RangeEnd(0x1000, 0xffff_ffff) == 0x1000;
    WrapAcceptsAll(s, e, 0x1000, 0xffff_ffff, perm);
  }
}
