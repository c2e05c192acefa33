/** Environment ids and the environment table: generations in 32 bits, the free list through env_link, lookup by
    id. */
module EnvIds {
  import opened Arithmetic
  import opened IntrusiveList
  import opened MlfqModel

  const ENVGENSHIFT := 12
  const STEP := 0x1000         // 1 << ENVGENSHIFT
  const SIGN := 0x8000_0000
  /** Ids a slot goes through before the first comes back. */
  const GENERATIONS := 0x7_ffff

  const E_BAD_ENV := 2
  const E_NO_MEM := 4
  const E_NO_FREE_ENV := 5

  /** The fields of struct Env that ids and the free list depend on, of every slot, and env_free_list. */
  datatype Envs = Envs(id: seq<int>, parent: seq<int>, status: seq<Status>, link: seq<int>, head: int)

  // ---------------------------------------------------------------- operations

  /** A sum of non-negative int32 values as the machine leaves it. */
  function Wrap(x: int): int { if x >= SIGN then x - 2 * SIGN else x }

  /** The id that env_alloc makes from the last id of `slot`: clearing the low bits rounds down to a multiple of
      NENV, and the slot fills them. */
  function NextId(last: int, slot: nat): int {
    var sum := Wrap(last + STEP);
    var generation := sum - sum % NENV;
    (if generation <= 0 then STEP else generation) + slot
  }

  predicate Sized(s: Envs) {
    |s.id| == NENV && |s.parent| == NENV && |s.status| == NENV && |s.link| == NENV
  }

  function InitEnvs(parent: seq<int>): Envs {
    Envs(seq(NENV, i => 0), parent, seq(NENV, i => Free), seq(NENV, i => if i + 1 < NENV then i + 1 else NULL), 0)
  }

  /** env_alloc when a page directory can be had. */
  function Alloc(s: Envs, parent: int): (Envs, int)
    requires Sized(s) && (s.head == NULL || 0 <= s.head < NENV)
  {
    if s.head == NULL then (s, -E_NO_FREE_ENV)
    else
      (Envs(s.id[s.head := NextId(s.id[s.head], s.head)], s.parent[s.head := parent], s.status[s.head := Runnable],
            s.link, s.link[s.head]), 0)
  }

  /** The end of env_free. */
  function FreeEnv(s: Envs, e: nat): Envs
    requires Sized(s) && e < NENV
  {
    s.(status := s.status[e := Free], link := s.link[e := s.head], head := e)
  }

  /** envid2env with a non-zero id and a running caller `cur`; NULL for -E_BAD_ENV. */
  function Lookup(s: Envs, envid: int, cur: nat, checkperm: bool): int
    requires Sized(s) && cur < NENV
  {
    var e := Envx(envid);
    if s.status[e] == Free || s.id[e] != envid then NULL
    else if checkperm && e != cur && s.parent[e] != s.id[cur] then NULL
    else e
  }

  // ---------------------------------------------------------------- one slot's ids

  function Generation(id: int): int { id / STEP }

  /** An id that env_alloc can leave in `slot`. */
  predicate UsedId(id: int, slot: nat) {
    slot < NENV && id == STEP * Generation(id) + slot && 1 <= Generation(id) <= GENERATIONS
  }

  /** Every id is positive, names its slot, and belongs to the generation after the last, the first one again
      after GENERATIONS. */
  lemma NextIdCorrect(last: int, slot: nat)
    requires slot < NENV && (last == 0 || UsedId(last, slot))
    ensures var id := NextId(last, slot);
            && UsedId(id, slot) && 0 < id < SIGN && Envx(id) == slot
            && Generation(id) == (if last == 0 || Generation(last) == GENERATIONS then 1 else Generation(last) + 1)
  {
    var g := if last == 0 then 0 else Generation(last);
    var next := if g == GENERATIONS then 1 else g + 1;
    NextIdValue(last, slot, g);
    ModUnique(STEP * next + slot, STEP, next, slot);
    ModUnique(STEP * next + slot, NENV, 4 * next, slot);
  }

  lemma NextIdValue(last: int, slot: nat, g: nat)
    requires slot < NENV && g <= GENERATIONS && (if g == 0 then last == 0 else last == STEP * g + slot)
    ensures NextId(last, slot) == STEP * (if g == GENERATIONS then 1 else g + 1) + slot
  {
    var sum := Wrap(last + STEP);
    if g == 0 {
    } else if g == GENERATIONS {
      ModUnique(sum, NENV, -0x20_0000, slot);
    } else {
      ModUnique(sum, NENV, 4 * (g + 1), slot);
    }
  }

  /** The id of a slot after `k` more allocations of it. */
  function Nth(id: int, slot: nat, k: nat): int {
    if k == 0 then id else NextId(Nth(id, slot, k - 1), slot)
  }

  lemma {:induction false} NthGeneration(id: int, slot: nat, k: nat)
    requires UsedId(id, slot)
    ensures UsedId(Nth(id, slot, k), slot)
    ensures Generation(Nth(id, slot, k)) == (Generation(id) - 1 + k) % GENERATIONS + 1
  {
    if k > 0 {
      NthGeneration(id, slot, k - 1);
      NextIdCorrect(Nth(id, slot, k - 1), slot);
      ModNext(Generation(id) - 1 + k - 1, GENERATIONS);
    }
  }

  /** The same id comes back after exactly the multiples of GENERATIONS reallocations of its slot. */
  lemma IdComesBackIff(id: int, slot: nat, k: nat)
    requires UsedId(id, slot)
    ensures Nth(id, slot, k) == id <==> k % GENERATIONS == 0
  {
    var a := Generation(id) - 1;
    NthGeneration(id, slot, k);
    var q, r := k / GENERATIONS, k % GENERATIONS;
    assert k == q * GENERATIONS + r;
    if a + r < GENERATIONS {
      ModUnique(a + k, GENERATIONS, q, a + r);
    } else {
      ModUnique(a + k, GENERATIONS, q + 1, a + r - GENERATIONS);
    }
  }

  // ---------------------------------------------------------------- the table

  /** `list` is the free list: it holds exactly the FREE slots. */
  ghost predicate FreeList(s: Envs, list: seq<int>)
    requires Sized(s)
  {
    && IsChain(s.link, s.head, list)
    && forall e :: 0 <= e < NENV ==> (e in list <==> s.status[e] == Free)
  }

  ghost predicate Inv(s: Envs) {
    && Sized(s) && (exists list :: FreeList(s, list))
    && (forall e :: 0 <= e < NENV ==> s.id[e] == 0 || UsedId(s.id[e], e))
    && (forall e :: 0 <= e < NENV && s.status[e] != Free ==> s.id[e] != 0)
  }

  lemma HeadIs(s: Envs, list: seq<int>)
    requires Sized(s) && FreeList(s, list)
    ensures s.head == NULL <==> list == []
    ensures list != [] ==> 0 <= s.head < NENV && s.head == list[0] && s.status[s.head] == Free
  {
    if list != [] { assert list[0] in list; }
  }

  /** env_alloc takes the first free slot, and fails exactly when no slot is FREE. */
  lemma AllocCorrect(s: Envs, list: seq<int>, parent: int)
    requires Inv(s) && FreeList(s, list)
    ensures s.head == NULL || 0 <= s.head < NENV
    ensures var (t, r) := Alloc(s, parent);
            && Inv(t)
            && (r == -E_NO_FREE_ENV <==> forall e :: 0 <= e < NENV ==> s.status[e] != Free)
            && (r != 0 ==> t == s)
            && (r == 0 ==> list != [] && FreeList(t, list[1..]) && t.status == s.status[list[0] := Runnable] &&
                           t.id == s.id[list[0] := NextId(s.id[list[0]], list[0])])
  {
    HeadIs(s, list);
    if list == [] {
      assert forall e :: 0 <= e < NENV ==> e !in list;
    } else {
      assert list[0] in list;
      var t := Alloc(s, parent).0;
      ChainIsDistinct(s.link, s.head, list);
      assert IsChain(t.link, t.head, list[1..]);
      forall e | 0 <= e < NENV ensures e in list[1..] <==> t.status[e] == Free {
        TailHas(list, e);
      }
      assert FreeList(t, list[1..]);
      NextIdCorrect(s.id[s.head], s.head);
    }
  }

  lemma TailHas(list: seq<int>, e: int)
    requires Distinct(list) && list != []
    ensures e in list[1..] <==> e in list && e != list[0]
  {
    assert list == [list[0]] + list[1..];
  }

  /** env_free puts the slot in front; the ids stay. */
  lemma FreeCorrect(s: Envs, list: seq<int>, e: nat)
    requires Inv(s) && FreeList(s, list) && e < NENV && s.status[e] != Free
    ensures Inv(FreeEnv(s, e)) && FreeList(FreeEnv(s, e), [e] + list) && FreeEnv(s, e).id == s.id
  {
    var t := FreeEnv(s, e);
    assert e !in list;
    ChainFrame(s.link, t.link, s.head, list);
    assert ([e] + list)[1..] == list;
    forall f | 0 <= f < NENV ensures f in [e] + list <==> t.status[f] == Free {}
    assert FreeList(t, [e] + list);
  }

  lemma {:induction false} InitChain(links: seq<int>, i: nat)
    requires |links| == NENV && i <= NENV
    requires forall k :: 0 <= k < NENV ==> links[k] == if k + 1 < NENV then k + 1 else NULL
    ensures IsChain(links, if i < NENV then i else NULL, seq(NENV - i, k => i + k))
    decreases NENV - i
  {
    if i < NENV {
      InitChain(links, i + 1);
      assert seq(NENV - i, k => i + k)[1..] == seq(NENV - (i + 1), k => i + 1 + k);
    }
  }

  /** env_init: every slot is FREE and they will be handed out in order from slot 0. */
  lemma InitCorrect(parent: seq<int>)
    requires |parent| == NENV
    ensures Inv(InitEnvs(parent)) && FreeList(InitEnvs(parent), seq(NENV, k => k))
  {
    var s, list := InitEnvs(parent), seq(NENV, k => 0 + k);
    InitChain(s.link, 0);
    assert list == seq(NENV, k => k);
    forall e | 0 <= e < NENV ensures e in list { assert list[e] == e; }
    assert FreeList(s, list);
  }

  /** Ids of environments that are not free are positive, find their own slot and differ from each other. */
  lemma LiveIds(s: Envs, e: nat, f: nat)
    requires Inv(s) && e < NENV && f < NENV && s.status[e] != Free && s.status[f] != Free
    ensures s.id[e] > 0 && Envx(s.id[e]) == e && Lookup(s, s.id[e], e, false) == e
    ensures e != f ==> s.id[e] != s.id[f]
  {
    assert UsedId(s.id[e], e) && UsedId(s.id[f], f);
    SlotOf(s.id[e], e);
    SlotOf(s.id[f], f);
  }

  lemma SlotOf(id: int, slot: nat)
    requires UsedId(id, slot)
    ensures 0 < id < SIGN && Envx(id) == slot
  {
    ModUnique(id, NENV, 4 * Generation(id), slot);
  }

  /** With permission checking, an environment finds exactly itself and its children. */
  lemma CheckPerm(s: Envs, e: nat, cur: nat)
    requires Inv(s) && e < NENV && cur < NENV && s.status[e] != Free && s.status[cur] != Free
    ensures Lookup(s, s.id[e], cur, true) == (if e == cur || s.parent[e] == s.id[cur] then e else NULL)
  {
    LiveIds(s, e, cur);
  }

  // ---------------------------------------------------------------- stale ids over whole runs

  datatype Op = AllocEnv(parent: int) | FreeSlot(e: nat) | SetStatus(e: nat, status: Status)

  ghost predicate Enabled(s: Envs, op: Op)
    requires Inv(s)
  {
    match op
    case AllocEnv(_) => true
    case FreeSlot(e) => e < NENV && s.status[e] != Free
    case SetStatus(e, st) => e < NENV && s.status[e] != Free && st != Free
  }

  lemma HeadInRange(s: Envs)
    requires Inv(s)
    ensures s.head == NULL || 0 <= s.head < NENV
  {
    var list :| FreeList(s, list);
    HeadIs(s, list);
  }

  ghost function Step(s: Envs, op: Op): Envs
    requires Inv(s) && Enabled(s, op)
  {
    HeadInRange(s);
    match op
    case AllocEnv(parent) => Alloc(s, parent).0
    case FreeSlot(e) => FreeEnv(s, e)
    case SetStatus(e, st) => s.(status := s.status[e := st])
  }

  lemma StepKeeps(s: Envs, op: Op)
    requires Inv(s) && Enabled(s, op)
    ensures Inv(Step(s, op))
  {
    var list :| FreeList(s, list);
    match op
    case AllocEnv(parent) => AllocCorrect(s, list, parent);
    case FreeSlot(e) => FreeCorrect(s, list, e);
    case SetStatus(e, st) => assert FreeList(Step(s, op), list);
  }

  /** The step allocates slot `slot`. */
  ghost predicate Allocates(s: Envs, op: Op, slot: nat)
    requires Inv(s)
  {
    op.AllocEnv? && s.head == slot
  }

  ghost predicate Runs(s: Envs, ops: seq<Op>)
    requires Inv(s)
    decreases |ops|
  {
    ops == [] || (Enabled(s, ops[0]) && (StepKeeps(s, ops[0]); Runs(Step(s, ops[0]), ops[1..])))
  }

  ghost function After(s: Envs, ops: seq<Op>): Envs
    requires Inv(s) && Runs(s, ops)
    decreases |ops|
  {
    if ops == [] then s else StepKeeps(s, ops[0]); After(Step(s, ops[0]), ops[1..])
  }

  /** How often a run allocates the slot. */
  ghost function Allocations(s: Envs, ops: seq<Op>, slot: nat): nat
    requires Inv(s) && Runs(s, ops)
    decreases |ops|
  {
    if ops == [] then 0
    else
      StepKeeps(s, ops[0]);
      (if Allocates(s, ops[0], slot) then 1 else 0) + Allocations(Step(s, ops[0]), ops[1..], slot)
  }

  lemma {:induction false} NthSum(id: int, slot: nat, a: nat, b: nat)
    ensures Nth(Nth(id, slot, a), slot, b) == Nth(id, slot, a + b)
  {
    if b > 0 { NthSum(id, slot, a, b - 1); }
  }

  lemma {:induction false} IdAfter(s: Envs, ops: seq<Op>, slot: nat)
    requires Inv(s) && Runs(s, ops) && slot < NENV
    ensures Inv(After(s, ops))
    ensures After(s, ops).id[slot] == Nth(s.id[slot], slot, Allocations(s, ops, slot))
    decreases |ops|
  {
    if ops != [] {
      var t := Step(s, ops[0]);
      StepKeeps(s, ops[0]);
      IdAfter(t, ops[1..], slot);
      HeadInRange(s);
      assert t.id[slot] == Nth(s.id[slot], slot, if Allocates(s, ops[0], slot) then 1 else 0) by {
        assert Nth(s.id[slot], slot, 1) == NextId(Nth(s.id[slot], slot, 0), slot);
      }
      NthSum(s.id[slot], slot, if Allocates(s, ops[0], slot) then 1 else 0, Allocations(t, ops[1..], slot));
    }
  }

  /** An id once given out finds its slot again exactly while the slot is in use and has been reallocated a
      multiple of GENERATIONS times since. */
  lemma StaleIdIff(s: Envs, ops: seq<Op>, slot: nat, cur: nat)
    requires Inv(s) && Runs(s, ops) && slot < NENV && s.id[slot] != 0 && cur < NENV
    ensures Inv(After(s, ops))
    ensures Lookup(After(s, ops), s.id[slot], cur, false) ==
            if After(s, ops).status[slot] != Free && Allocations(s, ops, slot) % GENERATIONS == 0 then slot else NULL
  {
    IdAfter(s, ops, slot);
    SlotOf(s.id[slot], slot);
    IdComesBackIff(s.id[slot], slot, Allocations(s, ops, slot));
  }

  // ---------------------------------------------------------------- env.c

  class EnvTable {
    const id: array<int>
    const parentId: array<int>
    const status: array<Status>
    const link: array<int>
    var freeList: int

    ghost predicate Valid()
      reads this, id, parentId, status, link
    {
      && id.Length == NENV && parentId.Length == NENV && status.Length == NENV && link.Length == NENV
      && id != parentId && id != link && parentId != link && Inv(Contents())
    }

    function Contents(): Envs
      reads this, id, parentId, status, link
    {
      Envs(id[..], parentId[..], status[..], link[..], freeList)
    }

    /** env_init. */
    constructor ()
      ensures Valid() && Contents() == InitEnvs(parentId[..]) && fresh({id, parentId, link}) && fresh(status)
    {
      id, parentId := new int[NENV](i => 0), new int[NENV](i => 0);
      status, link := new Status[NENV](i => Free), new int[NENV](i => 0);
      freeList := NULL;
      new;
      for i := 0 to NENV
        invariant forall k :: 0 <= k < i ==> id[k] == 0 && status[k] == Free && link[k] == k + 1
      {
        id[i] := 0;
        status[i] := Free;
        link[i] := i + 1;
      }
      link[NENV - 1] := NULL;
      freeList := 0;
      InitCorrect(parentId[..]);
      assert Contents() == InitEnvs(parentId[..]);
    }

    /** env_alloc; `memory` says whether env_setup_vm finds a page. Returns the slot, or NULL with the error. */
    method EnvAlloc(parent: int, memory: bool) returns (e: int, r: int)
      requires Valid()
      modifies this, id, parentId, status
      ensures Valid()
      ensures old(freeList) == NULL || 0 <= old(freeList) < NENV
      ensures old(freeList) != NULL && !memory ==> Contents() == old(Contents()) && e == NULL && r == -E_NO_MEM
      ensures old(freeList) == NULL || memory ==> (Contents(), r) == Alloc(old(Contents()), parent) &&
                                                  e == (if r == 0 then old(freeList) else NULL)
    {
      ghost var s := Contents();
      ghost var list :| FreeList(s, list);
      AllocCorrect(s, list, parent);
      e := freeList;
      if e == NULL { return NULL, -E_NO_FREE_ENV; }
      if !memory { return NULL, -E_NO_MEM; }
      id[e] := NextId(id[e], e);
      parentId[e] := parent;
      status[e] := Runnable;
      freeList := link[e];
      r := 0;
    }

    method EnvFree(e: nat)
      requires Valid() && e < NENV && status[e] != Free
      modifies this`freeList, status, link
      ensures Valid() && Contents() == FreeEnv(old(Contents()), e)
    {
      ghost var s := Contents();
      ghost var list :| FreeList(s, list);
      FreeCorrect(s, list, e);
      status[e] := Free;
      link[e] := freeList;
      freeList := e;
    }

    /** envid2env for a running caller. */
    method Envid2Env(envid: int, cur: nat, checkperm: bool) returns (e: int, r: int)
      requires Valid() && cur < NENV && status[cur] != Free
      ensures e == (if envid == 0 then cur else Lookup(Contents(), envid, cur, checkperm))
      ensures r == if e == NULL then -E_BAD_ENV else 0
    {
      if envid == 0 { return cur, 0; }
      e := Envx(envid);
      if status[e] == Free || id[e] != envid { return NULL, -E_BAD_ENV; }
      if checkperm && e != cur && parentId[e] != id[cur] { return NULL, -E_BAD_ENV; }
      return e, 0;
    }
  }
}
