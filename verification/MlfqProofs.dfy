/** The queues over whole runs: nothing is lost or doubled, and nobody starves. */
module MlfqProofs {
  import opened MlfqModel

  // ---------------------------------------------------------------- conservation

  /** All ids in the four queues. */
  ghost function Ids(s: Sched): multiset<int>
    requires Shape(s)
  {
    multiset(s.queues[0]) + multiset(s.queues[1]) + multiset(s.queues[2]) + multiset(s.queues[3])
  }

  lemma RemoveAtIds(q: seq<int>, k: nat)
    requires k < |q|
    ensures multiset(RemoveAt(q, k)) == multiset(q) - multiset{q[k]}
  {
    var r := q[k := q[0]];
    assert r == [q[0]] + r[1..];
    assert multiset(r) == multiset(q) - multiset{q[k]} + multiset{q[0]};
    assert multiset(r) == multiset{q[0]} + multiset(r[1..]);
    assert multiset(r[1..]) == multiset(r) - multiset{q[0]};
  }

  lemma DispatchedQueues(s: Sched, s': Sched, out: Outcome, n: int, k: int)
    requires Shape(s) && Shape(s') && Dispatched(s, s', out, n, k)
    ensures 0 <= n < LEVELS && 0 <= k < |s.queues[n]|
    ensures s'.queues == Append(Without(s, n, k), s.queues[n][k], NextLevel(n)).queues
  {
  }

  lemma DispatchedIds(s: Sched, s': Sched, out: Outcome, n: int, k: int)
    requires Shape(s) && Shape(s') && Dispatched(s, s', out, n, k)
    ensures Ids(s') == Ids(s)
  {
    DispatchedQueues(s, s', out, n, k);
    hide Dispatched, RemoveAt, Without, Append;
    var id := s.queues[n][k];
    EliminateIds(s, n, k);
    AppendIds(Without(s, n, k), id, NextLevel(n));
    EntryInIds(s, n, k);
  }

  lemma EntryInIds(s: Sched, n: nat, k: nat)
    requires Shape(s) && n < LEVELS && k < |s.queues[n]|
    ensures s.queues[n][k] in Ids(s)
  {
    assert s.queues[n][k] in multiset(s.queues[n]);
  }

  /** sched_yield only permutes the ids in the queues. */
  lemma YieldConserves(s: Sched, cur: int)
    requires Shape(s) && cur < NENV
    ensures Ids(Yield(s, cur).0) == Ids(s) && Size(Yield(s, cur).0) == Size(s)
  {
    hide Yield, Dispatched, HasRunnable, Promote;
    var s0 := if s.total >= PROMOTE_EVERY then Promote(s) else s;
    PromoteGathers(s);
    PromoteIds(s);
    var (s', out) := Yield(s, cur);
    StrictPriority(s, cur);
    if HasRunnable(s0) {
      var n, k :| Dispatched(s0, s', out, n, k);
      DispatchedIds(s0, s', out, n, k);
    }
    SizeIsIds(s);
    SizeIsIds(s');
  }

  lemma PromoteIds(s: Sched)
    requires Shape(s)
    ensures Ids(Promote(s)) == Ids(s)
  {
    PromoteGathers(s);
  }

  lemma SizeIsIds(s: Sched)
    requires Shape(s)
    ensures Size(s) == |Ids(s)|
  {
  }

  // ---------------------------------------------------------------- each environment once, in its own queue

  /** No slot has two entries. */
  ghost predicate Once(ids: multiset<int>) {
    forall a, b :: a in ids && b in ids && Envx(a) == Envx(b) ==> a == b && ids[a] == 1
  }

  /** Every entry is in the queue its cola_actual names. */
  ghost predicate InOwnQueue(s: Sched)
    requires Shape(s)
  {
    forall n, id :: 0 <= n < LEVELS && id in s.queues[n] ==> s.level[Envx(id)] == n
  }

  ghost predicate Placed(s: Sched)
    requires Shape(s)
  {
    Once(Ids(s)) && InOwnQueue(s)
  }

  lemma NotTwice(s: Sched, n: nat, k: nat)
    requires Shape(s) && Placed(s) && n < LEVELS && k < |s.queues[n]|
    ensures s.queues[n][k] !in RemoveAt(s.queues[n], k)
    ensures forall id :: id in RemoveAt(s.queues[n], k) ==> id in s.queues[n]
    ensures forall m, id :: 0 <= m < LEVELS && id in s.queues[m] && Envx(id) == Envx(s.queues[n][k]) ==>
              m == n && id == s.queues[n][k]
  {
    var id := s.queues[n][k];
    RemoveAtIds(s.queues[n], k);
    assert id in multiset(s.queues[n]) && id in Ids(s);
    assert multiset(RemoveAt(s.queues[n], k))[id] == 0;
    forall other | other in RemoveAt(s.queues[n], k) ensures other in s.queues[n] {
      assert other in multiset(RemoveAt(s.queues[n], k));
    }
    forall m, other | 0 <= m < LEVELS && other in s.queues[m] && Envx(other) == Envx(id) ensures m == n && other == id {
      assert other in multiset(s.queues[m]);
      assert s.level[Envx(other)] == m;
    }
  }

  lemma DispatchedPlaced(s: Sched, s': Sched, out: Outcome, n: int, k: int)
    requires Shape(s) && Shape(s') && Dispatched(s, s', out, n, k) && Placed(s)
    ensures Placed(s')
  {
    DispatchedIds(s, s', out, n, k);
    NotTwice(s, n, k);
    var id := s.queues[n][k];
    forall m, other | 0 <= m < LEVELS && other in s'.queues[m] ensures s'.level[Envx(other)] == m {
      if other != id {
        assert other in s.queues[m];
      }
    }
  }

  lemma {:induction false} AppendAllLevels(s: Sched, ids: seq<int>)
    requires Shape(s)
    ensures forall id :: id in ids ==> AppendAll(s, ids).level[Envx(id)] == 0
    ensures forall e :: 0 <= e < NENV && s.level[e] == 0 ==> AppendAll(s, ids).level[e] == 0
    decreases |ids|
  {
    if ids != [] {
      AppendAllLevels(s, ids[..|ids| - 1]);
      assert ids == ids[..|ids| - 1] + [ids[|ids| - 1]];
    }
  }

  lemma PromoteLevels(s: Sched)
    requires Shape(s) && InOwnQueue(s)
    ensures InOwnQueue(Promote(s))
  {
    hide AppendAll;
    var s1 := AppendAll(s, s.queues[1]);
    var s2 := AppendAll(s1, s.queues[2]);
    AppendAllLevels(s, s.queues[1]);
    AppendAllLevels(s1, s.queues[2]);
    AppendAllLevels(s2, s.queues[3]);
    assert Promote(s).level == AppendAll(s2, s.queues[3]).level;
    PromoteGathers(s);
    forall id | id in Promote(s).queues[0] ensures Promote(s).level[Envx(id)] == 0 {
      assert id in s.queues[0] || id in s.queues[1] || id in s.queues[2] || id in s.queues[3];
    }
  }

  lemma PromotePlaced(s: Sched)
    requires Shape(s) && Placed(s)
    ensures Placed(Promote(s))
  {
    hide Promote, InOwnQueue;
    PromoteIds(s);
    PromoteLevels(s);
  }

  /** Dispatch and promotion keep every environment's one entry in the queue its cola_actual names. */
  lemma YieldPlaced(s: Sched, cur: int)
    requires Shape(s) && cur < NENV && Placed(s)
    ensures Placed(Yield(s, cur).0)
  {
    hide Dispatched, HasRunnable, Promote, Placed;
    var s0 := if s.total >= PROMOTE_EVERY then Promote(s) else s;
    PromotePlaced(s);
    StrictPriority(s, cur);
    var (s', out) := Yield(s, cur);
    if HasRunnable(s0) {
      var n, k :| Dispatched(s0, s', out, n, k);
      DispatchedPlaced(s0, s', out, n, k);
    } else {
      NothingRunnable(s0);
      SamePlaced(s0, s');
    }
  }

  lemma SamePlaced(s: Sched, s': Sched)
    requires Shape(s) && Shape(s') && Placed(s) && s'.queues == s.queues && s'.level == s.level
    ensures Placed(s')
  {
  }

  lemma NotQueued(s: Sched, e: nat)
    requires Shape(s) && !Queued(s, e)
    ensures forall m, id :: 0 <= m < LEVELS && id in s.queues[m] ==> Envx(id) != e
    ensures forall id :: id in Ids(s) ==> Envx(id) != e
  {
    forall m, id | 0 <= m < LEVELS && id in s.queues[m] ensures Envx(id) != e {
      var i :| 0 <= i < |s.queues[m]| && s.queues[m][i] == id;
    }
    forall id | id in Ids(s) ensures Envx(id) != e {
      assert exists m :: 0 <= m < LEVELS && id in multiset(s.queues[m]);
    }
  }

  lemma AppendIds(s: Sched, id: int, n: nat)
    requires Shape(s) && n < LEVELS
    ensures Ids(Append(s, id, n)) == Ids(s) + multiset{id} && Size(Append(s, id, n)) == Size(s) + 1
  {
  }

  /** env_alloc puts the new id, of a slot without entry, in one queue. */
  lemma AllocPlaced(s: Sched, id: int, n: nat)
    requires Shape(s) && n < LEVELS && Placed(s) && !Queued(s, Envx(id))
    ensures Ids(Append(s, id, n)) == Ids(s) + multiset{id} && Placed(Append(s, id, n))
  {
    NotQueued(s, Envx(id));
    AppendIds(s, id, n);
    AppendOwnQueue(s, id, n);
    hide Ids;
  }

  lemma AppendOwnQueue(s: Sched, id: int, n: nat)
    requires Shape(s) && n < LEVELS && InOwnQueue(s)
    requires forall m, other :: 0 <= m < LEVELS && other in s.queues[m] ==> Envx(other) != Envx(id)
    ensures InOwnQueue(Append(s, id, n))
  {
  }

  // ---------------------------------------------------------------- sys_env_asignar_prioridad

  function Find(q: seq<int>, id: int): (k: nat)
    ensures k <= |q| && (k < |q| <==> id in q) && (k < |q| ==> q[k] == id)
    ensures forall i :: 0 <= i < k ==> q[i] != id
  {
    if q == [] || q[0] == id then 0 else 1 + Find(q[1..], id)
  }

  /** sched_eliminar_env. */
  function Eliminate(s: Sched, id: int): (r: Sched)
    requires Shape(s) && 0 <= s.level[Envx(id)] < LEVELS
    ensures Shape(r)
  {
    var n := s.level[Envx(id)];
    var k := Find(s.queues[n], id);
    if k < |s.queues[n]| then Without(s, n, k) else s
  }

  /** sys_env_asignar_prioridad once the environment is found and permission granted: the new state and the
      value returned. */
  function SetPriority(s: Sched, id: int, to: int): (r: (Sched, int))
    requires Shape(s) && 0 <= s.level[Envx(id)] < LEVELS
    ensures Shape(r.0)
  {
    if to < 0 || to > 3 then (s, -1)
    else if s.level[Envx(id)] == to then (s, to)
    else if s.level[Envx(id)] > to then (s, -1)
    else (Append(Eliminate(s, id), id, to), to)
  }

  /** The ring that gets the entry of `id` has room. */
  predicate PriorityFits(s: Sched, id: int, to: int)
    requires Shape(s)
  {
    s.level[Envx(id)] < to <= 3 && 0 <= to ==> |s.queues[to]| < NENV
  }

  /** The one entry of `id`, and what is left of its queue without it. */
  lemma EliminateFinds(s: Sched, id: int)
    requires Shape(s) && Placed(s) && id in Ids(s) && 0 <= s.level[Envx(id)] < LEVELS
    ensures var n := s.level[Envx(id)]; var k := Find(s.queues[n], id);
            && k < |s.queues[n]| && Eliminate(s, id).queues == s.queues[n := RemoveAt(s.queues[n], k)]
            && (forall other :: other in RemoveAt(s.queues[n], k) ==> other in s.queues[n])
            && (forall other :: other in RemoveAt(s.queues[n], k) ==> Envx(other) != Envx(id))
            && (forall m, other :: 0 <= m < LEVELS && m != n && other in s.queues[m] ==> Envx(other) != Envx(id))
  {
    var n := s.level[Envx(id)];
    assert exists m :: 0 <= m < LEVELS && id in multiset(s.queues[m]);
    assert id in s.queues[n];
    NotTwice(s, n, Find(s.queues[n], id));
  }

  lemma EliminateIds(s: Sched, n: nat, k: nat)
    requires Shape(s) && n < LEVELS && k < |s.queues[n]|
    ensures Ids(Without(s, n, k)) == Ids(s) - multiset{s.queues[n][k]}
  {
    RemoveAtIds(s.queues[n], k);
    assert s.queues[n][k] in multiset(s.queues[n]);
  }

  lemma FewerPlaced(s: Sched, s': Sched, id: int)
    requires Shape(s) && Shape(s') && Placed(s) && s'.level == s.level && Ids(s') == Ids(s) - multiset{id}
    requires forall m, other :: 0 <= m < LEVELS && other in s'.queues[m] ==> other in s.queues[m]
    ensures Placed(s')
  {
    hide Ids;
  }

  lemma NoEntry(s: Sched, e: nat)
    requires Shape(s) && forall m, id :: 0 <= m < LEVELS && id in s.queues[m] ==> Envx(id) != e
    ensures !Queued(s, e)
  {
    forall m, i | 0 <= m < LEVELS && 0 <= i < |s.queues[m]| ensures Envx(s.queues[m][i]) != e {
      assert s.queues[m][i] in s.queues[m];
    }
  }

  lemma EliminatePlaced(s: Sched, id: int)
    requires Shape(s) && Placed(s) && id in Ids(s) && 0 <= s.level[Envx(id)] < LEVELS
    ensures Ids(Eliminate(s, id)) == Ids(s) - multiset{id} && Placed(Eliminate(s, id))
    ensures !Queued(Eliminate(s, id), Envx(id))
  {
    hide RemoveAt, Ids, Placed, Queued;
    EliminateFinds(s, id);
    EliminateIds(s, s.level[Envx(id)], Find(s.queues[s.level[Envx(id)]], id));
    FewerPlaced(s, Eliminate(s, id), id);
    NoEntry(Eliminate(s, id), Envx(id));
  }

  /** Priorities only go down, and the one entry of the environment moves with its cola_actual. */
  lemma SetPriorityPlaced(s: Sched, id: int, to: int)
    requires Shape(s) && Placed(s) && id in Ids(s) && 0 <= s.level[Envx(id)] < LEVELS
    ensures var (s', r) := SetPriority(s, id, to);
            && Placed(s') && Ids(s') == Ids(s)
            && (r != -1 <==> s.level[Envx(id)] <= to <= 3) && (r != -1 ==> r == to && s'.level[Envx(id)] == to)
            && (r == -1 ==> s' == s)
  {
    hide Eliminate, Placed, Queued, Ids;
    if s.level[Envx(id)] < to <= 3 {
      EliminatePlaced(s, id);
      AllocPlaced(Eliminate(s, id), id, to);
    }
  }
}
