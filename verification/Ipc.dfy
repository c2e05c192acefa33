/** The rendezvous: sys_ipc_try_send and sys_ipc_recv in the kernel, ipc_send and ipc_recv around them, every
    interleaving of the environments that use them. */
module Ipc {
  import opened MlfqModel

  const UTOP := 0xeec0_0000
  const PGSIZE := 4096
  const SIGN := 0x8000_0000

  const E_BAD_ENV := 2
  const E_INVAL := 3
  const E_IPC_NOT_RECV := 7

  datatype Msg = Msg(from: nat, value: int)
  datatype Sent = Sent(to: nat, value: int)

  /** Where an environment is in the user library. */
  datatype User =
    | Computing
    | Blocked                       // in sys_ipc_recv
    | Delivered                     // sys_ipc_recv has returned, ipc_recv has not read the value yet
    | Sending(to: nat, value: int)  // in the loop of ipc_send
    | Panicked                      // ipc_send got an error it does not retry

  /** The IPC fields of struct Env and env_status, and the library's state. History: `sent` holds what successful
      sends delivered here, `got` what ipc_recv returned here, `done` the calls of ipc_send that returned. */
  datatype Env = Env(status: Status, recving: bool, value: int, from: nat, user: User,
                     sent: seq<Msg>, got: seq<Msg>, done: seq<Sent>)

  /** An environment is named by its place in the order of creation. */
  type State = seq<Env>

  datatype Event =
    | Create
    | Destroy(e: nat)
    | Dispatch(e: nat)
    | Preempt(e: nat)
    | SetStatus(e: nat, status: Status)
    | Receive(e: nat, dstva: nat)           // the call of ipc_recv
    | ReturnValue(e: nat)                   // ipc_recv reads the fields and returns
    | ReturnEarly(e: nat)                   // sys_ipc_recv returns with no message: its own number is still in eax
    | Send(e: nat, to: nat, value: int)     // the call of ipc_send
    | Attempt(e: nat, pageError: bool)      // one sys_ipc_try_send of its loop
    | GiveUp(e: nat)                        // a program that tries once, with the bare system call

  function AsInt32(value: int): int { if value >= SIGN then value - 2 * SIGN else value }

  /** ipc_recv returns the 32-bit value as an int. */
  function Returned(m: Msg): Msg { m.(value := AsInt32(m.value)) }

  predicate Alive(s: State, e: nat) { e < |s| && s[e].status != Free }

  predicate ValidDstva(dstva: nat) { dstva < UTOP && dstva % PGSIZE == 0 }

  // ---------------------------------------------------------------- the system calls

  /** sys_ipc_recv by `e`: the new state and, for a bad address, the error it returns. */
  function Recv(s: State, e: nat, dstva: nat): (State, int)
    requires e < |s|
  {
    var t := s[e := s[e].(recving := true)];
    if !ValidDstva(dstva) then (t, -E_INVAL) else (t[e := t[e].(status := NotRunnable)], 0)
  }

  /** sys_ipc_try_send by `e`; `pageError` says that the page to transfer is refused. */
  function TrySend(s: State, e: nat, to: nat, value: int, pageError: bool): (State, int)
    requires e < |s|
  {
    if !Alive(s, to) then (s, -E_BAD_ENV)
    else if !s[to].recving then (s, -E_IPC_NOT_RECV)
    else if pageError then (s, -E_INVAL)
    else (s[to := s[to].(from := e, recving := false, value := value, status := Runnable)], 0)
  }

  // ---------------------------------------------------------------- steps

  function Possible(s: State, ev: Event): bool {
    match ev
    case Create => true
    case Destroy(e) => Alive(s, e)
    case Dispatch(e) => e < |s| && s[e].status == Runnable
    case Preempt(e) => e < |s| && s[e].status == Running
    case SetStatus(e, st) => Alive(s, e) && (st == Runnable || st == NotRunnable)
    case Receive(e, _) => e < |s| && s[e].status == Running && s[e].user == Computing
    case ReturnValue(e) => e < |s| && s[e].status == Running && s[e].user == Delivered
    case ReturnEarly(e) => e < |s| && s[e].status == Running && s[e].user == Blocked
    case Send(e, _, value) => e < |s| && s[e].status == Running && s[e].user == Computing && 0 <= value < 2 * SIGN
    case Attempt(e, _) => e < |s| && s[e].status == Running && s[e].user.Sending?
    case GiveUp(e) => e < |s| && s[e].status == Running && s[e].user.Sending?
  }

  function Next(s: State, ev: Event): State
    requires Possible(s, ev)
  {
    match ev
    case Create => s + [Env(Runnable, false, 0, 0, Computing, [], [], [])]
    case Destroy(e) => s[e := s[e].(status := Free)]
    case Dispatch(e) => s[e := s[e].(status := Running)]
    case Preempt(e) => s[e := s[e].(status := Runnable)]
    case SetStatus(e, st) => s[e := s[e].(status := st)]
    case Receive(e, dstva) =>
      var (t, r) := Recv(s, e, dstva);
      if r == 0 then t[e := t[e].(user := Blocked)] else t
    case ReturnValue(e) => s[e := s[e].(user := Computing, got := s[e].got + [Returned(Msg(s[e].from, s[e].value))])]
    case ReturnEarly(e) => s[e := s[e].(user := Panicked)]
    case Send(e, to, value) => s[e := s[e].(user := Sending(to, value))]
    case Attempt(e, pageError) => AttemptSend(s, e, pageError)
    case GiveUp(e) => s[e := s[e].(user := Computing)]
  }

  /** One round of the loop of ipc_send. A message reaches only a target that waits in ipc_recv. */
  function AttemptSend(s: State, e: nat, pageError: bool): State
    requires e < |s| && s[e].user.Sending?
  {
    var to, value := s[e].user.to, s[e].user.value;
    var (t, r) := TrySend(s, e, to, value, pageError);
    if r == 0 then
      var u := t[to := t[to].(user := if t[to].user == Blocked then Delivered else t[to].user,
                              sent := t[to].sent + [Msg(e, value)])];
      u[e := u[e].(user := Computing, done := u[e].done + [Sent(to, value)])]
    else if r == -E_IPC_NOT_RECV then t
    else t[e := t[e].(user := Panicked)]
  }

  /** What the library relies on: a valid address, and nobody makes a blocked receiver runnable. */
  predicate Assumed(s: State, ev: Event)
    requires Possible(s, ev)
  {
    match ev
    case SetStatus(e, st) => !(s[e].user == Blocked && st == Runnable)
    case Receive(_, dstva) => ValidDstva(dstva)
    case _ => true
  }

  // ---------------------------------------------------------------- the invariant

  function Values(msgs: seq<Msg>, from: nat): seq<int> {
    if msgs == [] then []
    else Values(msgs[..|msgs| - 1], from) + if msgs[|msgs| - 1].from == from then [msgs[|msgs| - 1].value] else []
  }

  function ValuesTo(done: seq<Sent>, to: nat): seq<int> {
    if done == [] then []
    else ValuesTo(done[..|done| - 1], to) + if done[|done| - 1].to == to then [done[|done| - 1].value] else []
  }

  function AllReturned(msgs: seq<Msg>): (r: seq<Msg>)
    ensures |r| == |msgs| && forall i :: 0 <= i < |msgs| ==> r[i] == Returned(msgs[i])
  {
    if msgs == [] then [] else [Returned(msgs[0])] + AllReturned(msgs[1..])
  }

  /** The kernel's fields agree with the library, and what was returned is what was sent, save one message that
      waits to be read. */
  predicate EnvOk(v: Env) {
    && (v.status != Free ==> (v.recving <==> v.user == Blocked) && (v.user == Blocked ==> v.status == NotRunnable))
    && v.got <= AllReturned(v.sent)
    && |v.sent| == |v.got| + (if v.user == Delivered then 1 else 0)
    && (v.user == Delivered ==> v.sent[|v.got|] == Msg(v.from, v.value))
  }

  ghost predicate Matched(s: State, a: nat, b: nat)
    requires a < |s| && b < |s|
  {
    Values(s[b].sent, a) == ValuesTo(s[a].done, b)
  }

  ghost predicate Inv(s: State) {
    && (forall e :: 0 <= e < |s| ==> EnvOk(s[e]))
    && (forall a, b :: 0 <= a < |s| && 0 <= b < |s| ==> Matched(s, a, b))
    && (forall a, b :: 0 <= a < |s| && |s| <= b ==> ValuesTo(s[a].done, b) == [])
    && (forall a, b :: |s| <= a && 0 <= b < |s| ==> Values(s[b].sent, a) == [])
  }

  lemma ValuesSnoc(msgs: seq<Msg>, m: Msg, from: nat)
    ensures Values(msgs + [m], from) == Values(msgs, from) + if m.from == from then [m.value] else []
  {
    assert (msgs + [m])[..|msgs|] == msgs;
  }

  lemma ValuesToSnoc(done: seq<Sent>, m: Sent, to: nat)
    ensures ValuesTo(done + [m], to) == ValuesTo(done, to) + if m.to == to then [m.value] else []
  {
    assert (done + [m])[..|done|] == done;
  }

  lemma {:induction false} AllReturnedSnoc(msgs: seq<Msg>, m: Msg)
    ensures AllReturned(msgs + [m]) == AllReturned(msgs) + [Returned(m)]
  {
    var a, b := AllReturned(msgs + [m]), AllReturned(msgs) + [Returned(m)];
    assert forall i :: 0 <= i < |a| ==> a[i] == b[i];
  }

  /** A step of one environment that leaves the logs of sends alone. */
  lemma LocalKeeps(s: State, e: nat, v: Env)
    requires Inv(s) && e < |s| && EnvOk(v) && v.sent == s[e].sent && v.done == s[e].done
    ensures Inv(s[e := v])
  {
    hide EnvOk, Values, ValuesTo;
    var t := s[e := v];
    forall a, b | 0 <= a < |t| && 0 <= b < |t| ensures Matched(t, a, b) { assert Matched(s, a, b); }
  }

  /** A send succeeds exactly when its target is blocked in ipc_recv; nothing is sent between a delivery and the
      next receive. */
  lemma SendSucceedsIff(s: State, e: nat, to: nat, value: int, pageError: bool)
    requires Inv(s) && e < |s|
    ensures var (t, r) := TrySend(s, e, to, value, pageError);
            && (r == 0 <==> Alive(s, to) && s[to].user == Blocked && !pageError)
            && (r == -E_IPC_NOT_RECV <==> Alive(s, to) && s[to].user != Blocked)
            && (r != 0 ==> t == s)
  {
    hide Values, ValuesTo, Matched;
    assert to < |s| ==> EnvOk(s[to]);
  }

  /** What a successful attempt changes: the receiver and the sender, which are not the same. */
  lemma DeliverShape(s: State, e: nat, pageError: bool)
    requires e < |s| && s[e].user.Sending? && s[e].status != Free && forall f :: 0 <= f < |s| ==> EnvOk(s[f])
    requires TrySend(s, e, s[e].user.to, s[e].user.value, pageError).1 == 0
    ensures var to, value, t := s[e].user.to, s[e].user.value, AttemptSend(s, e, pageError);
            && to < |s| && to != e && |t| == |s| && t == s[to := t[to]][e := t[e]]
            && t[to] == s[to].(from := e, recving := false, value := value, status := Runnable, user := Delivered,
                               sent := s[to].sent + [Msg(e, value)])
            && t[e] == s[e].(user := Computing, done := s[e].done + [Sent(to, value)])
            && s[to].user == Blocked
  {
    var to := s[e].user.to;
    assert EnvOk(s[to]) && EnvOk(s[e]);
  }

  lemma DeliveredOk(v: Env, e: nat, value: int)
    requires EnvOk(v) && v.user == Blocked
    ensures EnvOk(v.(from := e, recving := false, value := value, status := Runnable, user := Delivered,
                     sent := v.sent + [Msg(e, value)]))
  {
    AllReturnedSnoc(v.sent, Msg(e, value));
  }

  lemma DeliverKeeps(s: State, e: nat, pageError: bool)
    requires Inv(s) && e < |s| && s[e].user.Sending? && s[e].status != Free
    requires TrySend(s, e, s[e].user.to, s[e].user.value, pageError).1 == 0
    ensures Inv(AttemptSend(s, e, pageError))
  {
    var to, value := s[e].user.to, s[e].user.value;
    var t := AttemptSend(s, e, pageError);
    hide AttemptSend, TrySend, Values, ValuesTo, Matched, AllReturned;
    DeliverShape(s, e, pageError);
    DeliveredOk(s[to], e, value);
    assert EnvOk(t[e]) by { assert EnvOk(s[e]); }
    hide EnvOk;
    forall a: nat ensures Values(t[to].sent, a) == Values(s[to].sent, a) + if a == e then [value] else [] {
      ValuesSnoc(s[to].sent, Msg(e, value), a);
    }
    forall b: nat ensures ValuesTo(t[e].done, b) == ValuesTo(s[e].done, b) + if b == to then [value] else [] {
      ValuesToSnoc(s[e].done, Sent(to, value), b);
    }
    DeliverMatches(s, t, e, to, value);
  }

  lemma DeliverMatches(s: State, t: State, e: nat, to: nat, value: int)
    requires Inv(s) && e < |s| && to < |s| && e != to && |t| == |s| && EnvOk(t[to]) && EnvOk(t[e])
    requires t == s[to := t[to]][e := t[e]] && t[to].done == s[to].done && t[e].sent == s[e].sent
    requires forall a: nat :: Values(t[to].sent, a) == Values(s[to].sent, a) + if a == e then [value] else []
    requires forall b: nat :: ValuesTo(t[e].done, b) == ValuesTo(s[e].done, b) + if b == to then [value] else []
    ensures Inv(t)
  {
    hide EnvOk, Values, ValuesTo;
    forall a, b | 0 <= a < |t| && 0 <= b < |t| ensures Matched(t, a, b) {
      assert Matched(s, a, b);
    }
  }

  lemma CreateKeeps(s: State)
    requires Inv(s)
    ensures Inv(Next(s, Create))
  {
    var t := Next(s, Create);
    assert Values([], 0) == [];
    forall a, b | 0 <= a < |t| && 0 <= b < |t| ensures Matched(t, a, b) {
      if a < |s| && b < |s| { assert Matched(s, a, b); }
    }
  }

  lemma AttemptKeeps(s: State, e: nat, pageError: bool)
    requires Inv(s) && Possible(s, Attempt(e, pageError))
    ensures Inv(AttemptSend(s, e, pageError))
  {
    hide Values, ValuesTo, Matched;
    if TrySend(s, e, s[e].user.to, s[e].user.value, pageError).1 == 0 {
      DeliverKeeps(s, e, pageError);
    } else if !(Alive(s, s[e].user.to) && !s[s[e].user.to].recving) {
      assert EnvOk(s[e]);
      LocalKeeps(s, e, s[e].(user := Panicked));
    }
  }

  lemma StepKeeps(s: State, ev: Event)
    requires Inv(s) && Possible(s, ev) && Assumed(s, ev)
    ensures Inv(Next(s, ev))
  {
    hide Values, ValuesTo, Matched, AttemptSend, AllReturned;
    if ev.Create? {
      CreateKeeps(s);
    } else if ev.Attempt? {
      AttemptKeeps(s, ev.e, ev.pageError);
    } else if ev.Receive? {
      assert Next(s, ev) == s[ev.e := s[ev.e].(recving := true, status := NotRunnable, user := Blocked)];
      assert EnvOk(s[ev.e]);
      LocalKeeps(s, ev.e, Next(s, ev)[ev.e]);
    } else {
      assert EnvOk(s[ev.e]);
      EnvStep(s, ev);
      LocalKeeps(s, ev.e, Next(s, ev)[ev.e]);
    }
  }

  /** The steps of one environment by itself. */
  lemma EnvStep(s: State, ev: Event)
    requires Possible(s, ev) && Assumed(s, ev) && !ev.Create? && !ev.Attempt? && !ev.Receive? && EnvOk(s[ev.e])
    ensures var v := Next(s, ev)[ev.e];
            Next(s, ev) == s[ev.e := v] && EnvOk(v) && v.sent == s[ev.e].sent && v.done == s[ev.e].done
  {
    hide AttemptSend, Recv, AllReturned;
    if ev.ReturnValue? {
      ReadOk(s[ev.e]);
      hide EnvOk;
    }
  }

  /** ipc_recv reads the message that was waiting. */
  lemma ReadOk(v: Env)
    requires EnvOk(v) && v.user == Delivered
    ensures EnvOk(v.(user := Computing, got := v.got + [Returned(Msg(v.from, v.value))]))
  {
  }

  // ---------------------------------------------------------------- whole runs

  predicate Runs(s: State, events: seq<Event>)
    decreases |events|
  {
    events == [] || (Possible(s, events[0]) && Assumed(s, events[0]) && Runs(Next(s, events[0]), events[1..]))
  }

  function After(s: State, events: seq<Event>): State
    requires Runs(s, events)
    decreases |events|
  {
    if events == [] then s else After(Next(s, events[0]), events[1..])
  }

  lemma {:induction false} RunKeeps(s: State, events: seq<Event>)
    requires Inv(s) && Runs(s, events)
    ensures Inv(After(s, events))
    decreases |events|
  {
    hide Inv, Next, Possible, Assumed;
    if events != [] {
      StepKeeps(s, events[0]);
      RunKeeps(Next(s, events[0]), events[1..]);
    }
  }

  /** What ipc_recv returned to every environment is, in order, what was sent to it, with at most one message
      delivered and unread; and for every sender and receiver, the values delivered are exactly those of the sender's
      completed calls of ipc_send, in their order. */
  ghost predicate Promise(t: State) {
    && (forall b :: 0 <= b < |t| ==>
          t[b].got <= AllReturned(t[b].sent) && |t[b].sent| == |t[b].got| + if t[b].user == Delivered then 1 else 0)
    && (forall a, b :: 0 <= a < |t| && 0 <= b < |t| ==> Matched(t, a, b))
  }

  lemma InvKeepsPromise(t: State)
    requires Inv(t)
    ensures Promise(t)
  {
    hide Values, ValuesTo, Matched;
    forall b | 0 <= b < |t|
      ensures t[b].got <= AllReturned(t[b].sent) && |t[b].sent| == |t[b].got| + if t[b].user == Delivered then 1 else 0
    {
      assert EnvOk(t[b]);
    }
  }

  /** In every run from no environments no message is lost, repeated or reordered. */
  lemma Lossless(events: seq<Event>)
    requires Runs([], events)
    ensures Promise(After([], events))
  {
    RunKeeps([], events);
    InvKeepsPromise(After([], events));
  }

  // ---------------------------------------------------------------- syscall.c

  /** The environments as the kernel updates them. */
  class EnvFields {
    const envs: array<Env>

    constructor (envs: array<Env>)
      ensures this.envs == envs
    {
      this.envs := envs;
    }

    method SysIpcTrySend(cur: nat, to: nat, value: int, pageError: bool) returns (r: int)
      requires cur < envs.Length
      modifies envs
      ensures (envs[..], r) == TrySend(old(envs[..]), cur, to, value, pageError)
    {
      if to >= envs.Length || envs[to].status == Free { return -E_BAD_ENV; }
      if !envs[to].recving { return -E_IPC_NOT_RECV; }
      if pageError { return -E_INVAL; }
      envs[to] := envs[to].(from := cur);
      envs[to] := envs[to].(recving := false);
      envs[to] := envs[to].(value := value);
      envs[to] := envs[to].(status := Runnable);
      assert envs[..] == old(envs[..])[to := envs[to]];
      return 0;
    }

    /** Up to the sys_yield that does not return. */
    method SysIpcRecv(cur: nat, dstva: nat) returns (r: int)
      requires cur < envs.Length
      modifies envs
      ensures (envs[..], r) == Recv(old(envs[..]), cur, dstva)
    {
      envs[cur] := envs[cur].(recving := true);
      if dstva >= UTOP || dstva % PGSIZE != 0 { return -E_INVAL; }
      envs[cur] := envs[cur].(status := NotRunnable);
      return 0;
    }
  }
}
