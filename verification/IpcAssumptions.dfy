/** What becomes of the rendezvous when its callers do what `Ipc.Assumed` leaves out: exactly when each such call is
    safe, and a message that is sent and never returned. */
module IpcAssumptions {
  import opened MlfqModel
  import opened Ipc

  ghost predicate Reaches(s: State, t: State) {
    exists events :: Runs(s, events) && After(s, events) == t
  }

  lemma {:induction false} RunsMore(s: State, events: seq<Event>, ev: Event)
    requires Runs(s, events) && Possible(After(s, events), ev) && Assumed(After(s, events), ev)
    ensures Runs(s, events + [ev]) && After(s, events + [ev]) == Next(After(s, events), ev)
    decreases |events|
  {
    hide Next, Possible, Assumed;
    if events == [] {
      assert ([] + [ev])[1..] == [];
    } else {
      RunsMore(Next(s, events[0]), events[1..], ev);
      assert (events + [ev])[1..] == events[1..] + [ev];
    }
  }

  lemma Stays(s: State)
    ensures Reaches(s, s)
  {
    assert Runs(s, []) && After(s, []) == s;
  }

  /** One step more. */
  lemma Then(s: State, t: State, ev: Event)
    requires Reaches(s, t) && Possible(t, ev) && Assumed(t, ev)
    ensures Reaches(s, Next(t, ev))
  {
    hide Next, Possible, Assumed, Runs, After;
    var events :| Runs(s, events) && After(s, events) == t;
    RunsMore(s, events, ev);
  }

  /** From here on no run breaks the promise, as long as the callers keep to the assumptions. */
  ghost predicate SafeForever(t: State) {
    forall events :: Runs(t, events) ==> Promise(After(t, events))
  }

  lemma InvIsSafe(t: State)
    requires Inv(t)
    ensures SafeForever(t)
  {
    hide Inv, Promise;
    forall events | Runs(t, events) ensures Promise(After(t, events)) {
      RunKeeps(t, events);
      InvKeepsPromise(After(t, events));
    }
  }

  lemma SafeThere(s: State, t: State)
    requires Reaches(s, t)
    ensures SafeForever(s) ==> Promise(t)
  {
  }

  // ---------------------------------------------------------------- a message nobody waits for

  /** Open to sends without waiting in ipc_recv, with everything returned so far. */
  predicate OffGuard(v: Env) {
    v.status != Free && v.recving && v.user != Blocked && v.user != Delivered && |v.sent| == |v.got|
  }

  /** A new environment sends `value` to `e`: Create, dispatch, and one round of ipc_send. */
  function Sent3(t: State, e: nat, value: int): State
    requires e < |t|
  {
    t[e := t[e].(from := |t|, recving := false, value := value, status := Runnable,
                 sent := t[e].sent + [Msg(|t|, value)])]
      + [Env(Running, false, 0, 0, Computing, [], [], [Sent(e, value)])]
  }

  lemma Sends(s: State, t: State, e: nat, value: int)
    requires Reaches(s, t) && e < |t| && OffGuard(t[e]) && 0 <= value < 2 * SIGN
    ensures Reaches(s, Sent3(t, e, value))
  {
    hide Reaches;
    var n := |t|;
    Then(s, t, Create);
    var t1 := Next(t, Create);
    Then(s, t1, Event.Dispatch(n));
    var t2 := Next(t1, Event.Dispatch(n));
    Then(s, t2, Send(n, e, value));
    var t3 := Next(t2, Send(n, e, value));
    Then(s, t3, Attempt(n, false));
    assert t1 == t + [Env(Runnable, false, 0, 0, Computing, [], [], [])];
    assert t3 == t + [Env(Running, false, 0, 0, Sending(e, value), [], [], [])];
    assert [] + [Sent(e, value)] == [Sent(e, value)];
    assert Next(t3, Attempt(n, false)) == Sent3(t, e, value);
  }

  /** The send succeeds and the message is counted as sent, but nothing is there to return it. */
  lemma OffGuardLoses(s: State, t: State, e: nat)
    requires Reaches(s, t) && e < |t| && OffGuard(t[e])
    ensures !SafeForever(s)
  {
    Sends(s, t, e, 0);
    var u := Sent3(t, e, 0);
    assert |u[e].sent| == |u[e].got| + 1 && u[e].user != Delivered;
    assert !Promise(u);
    SafeThere(s, u);
  }

  // ---------------------------------------------------------------- exactly when

  /** sys_ipc_recv keeps the promise exactly with a valid address: a refused call leaves its caller open to a send
      whose message is lost. */
  lemma ReceiveSafeIff(s: State, e: nat, dstva: nat)
    requires Inv(s) && Possible(s, Receive(e, dstva))
    ensures SafeForever(Next(s, Receive(e, dstva))) <==> ValidDstva(dstva)
  {
    var t := Next(s, Receive(e, dstva));
    if ValidDstva(dstva) {
      StepKeeps(s, Receive(e, dstva));
      InvIsSafe(t);
    } else {
      hide Values, ValuesTo, Matched;
      assert EnvOk(s[e]);
      Stays(t);
      assert OffGuard(t[e]);
      OffGuardLoses(t, t, e);
    }
  }

  /** set_status keeps the promise exactly when it does not make a blocked receiver runnable: its sys_ipc_recv would
      return early, the library panics, and the next message to it is lost. */
  lemma SetStatusSafeIff(s: State, e: nat, st: Status)
    requires Inv(s) && Possible(s, SetStatus(e, st))
    ensures SafeForever(Next(s, SetStatus(e, st))) <==> !(s[e].user == Blocked && st == Runnable)
  {
    var t := Next(s, SetStatus(e, st));
    if s[e].user == Blocked && st == Runnable {
      hide Values, ValuesTo, Matched;
      assert EnvOk(s[e]);
      WokenEarly(t, e);
    } else {
      StepKeeps(s, SetStatus(e, st));
      InvIsSafe(t);
    }
  }

  lemma WokenEarly(t: State, e: nat)
    requires e < |t| && t[e].status == Runnable && t[e].user == Blocked && t[e].recving && |t[e].sent| == |t[e].got|
    ensures !SafeForever(t)
  {
    hide Reaches, SafeForever;
    Stays(t);
    Then(t, t, Event.Dispatch(e));
    var t1 := Next(t, Event.Dispatch(e));
    Then(t, t1, ReturnEarly(e));
    OffGuardLoses(t, Next(t1, ReturnEarly(e)), e);
  }

  // ---------------------------------------------------------------- a run from the start, and what follows it

  /** Environment 0 runs. */
  function OneRuns(): State { [Env(Running, false, 0, 0, Computing, [], [], [])] }

  /** It has called ipc_recv with an address at UTOP, and environment 1 has sent it 7. */
  function Lost(): State { Sent3(Next(OneRuns(), Receive(0, UTOP)), 0, 7) }

  /** sys_ipc_recv was refused, the send succeeded, and nothing was returned. */
  lemma SentAndNotReturned()
    ensures Reaches([], OneRuns()) && Possible(OneRuns(), Receive(0, UTOP)) && Recv(OneRuns(), 0, UTOP).1 == -E_INVAL
    ensures Reaches(Next(OneRuns(), Receive(0, UTOP)), Lost())
    ensures Lost()[0].sent == [Msg(1, 7)] && Lost()[0].got == [] && Lost()[0].user == Computing && !Promise(Lost())
  {
    hide Reaches;
    Stays([]);
    Then([], [], Create);
    var t1 := Next([], Create);
    Then([], t1, Event.Dispatch(0));
    assert Next(t1, Event.Dispatch(0)) == OneRuns();
    var t := Next(OneRuns(), Receive(0, UTOP));
    Stays(t);
    Sends(t, t, 0, 7);
    assert !(|Lost()[0].sent| == |Lost()[0].got|);
  }

  ghost predicate EnvsOk(s: State) { forall e :: 0 <= e < |s| ==> EnvOk(s[e]) }

  /** Without the first `k` messages sent to `e`. */
  function Forget(s: State, e: nat, k: nat): State
    requires e < |s| && k <= |s[e].sent|
  {
    s[e := s[e].(sent := s[e].sent[k..])]
  }

  /** No step looks at what was sent before. */
  lemma ForgetStep(s: State, ev: Event, e: nat, k: nat)
    requires e < |s| && k <= |s[e].sent| && Possible(s, ev)
    ensures var t := Next(s, ev);
            && e < |t| && k <= |t[e].sent| && Possible(Forget(s, e, k), ev)
            && Next(Forget(s, e, k), ev) == Forget(t, e, k)
  {
    if ev.Attempt? {
      ForgetAttempt(s, ev.e, ev.pageError, e, k);
    } else {
      assert Next(Forget(s, e, k), ev) == Forget(Next(s, ev), e, k);
    }
  }

  lemma ForgetAttempt(s: State, b: nat, pageError: bool, e: nat, k: nat)
    requires e < |s| && k <= |s[e].sent| && b < |s| && s[b].user.Sending?
    ensures var t := AttemptSend(s, b, pageError);
            e < |t| && k <= |t[e].sent| && AttemptSend(Forget(s, e, k), b, pageError) == Forget(t, e, k)
  {
    var m := Msg(b, s[b].user.value);
    assert (s[e].sent + [m])[k..] == s[e].sent[k..] + [m];
    assert AttemptSend(Forget(s, e, k), b, pageError) == Forget(AttemptSend(s, b, pageError), e, k);
  }

  lemma EnvsKeep(s: State, ev: Event)
    requires EnvsOk(s) && Possible(s, ev) && Assumed(s, ev)
    ensures EnvsOk(Next(s, ev))
  {
    hide AttemptSend, AllReturned;
    if ev.Attempt? {
      AttemptEnvs(s, ev.e, ev.pageError);
    } else if ev.Create? {
    } else if ev.Receive? {
      assert Next(s, ev) == s[ev.e := s[ev.e].(recving := true, status := NotRunnable, user := Blocked)];
    } else {
      EnvStep(s, ev);
      hide EnvOk;
    }
  }

  lemma AttemptEnvs(s: State, b: nat, pageError: bool)
    requires EnvsOk(s) && Possible(s, Attempt(b, pageError))
    ensures EnvsOk(AttemptSend(s, b, pageError))
  {
    var to, value := s[b].user.to, s[b].user.value;
    if TrySend(s, b, to, value, pageError).1 == 0 {
      DeliverShape(s, b, pageError);
      DeliveredOk(s[to], b, value);
    }
  }

  lemma {:induction false} NeverReturned(s: State, events: seq<Event>, e: nat, k: nat)
    requires e < |s| && k <= |s[e].sent| && EnvsOk(Forget(s, e, k)) && Runs(s, events)
    ensures var t := After(s, events);
            e < |t| && k <= |t[e].sent| && s[e].sent <= t[e].sent && EnvsOk(Forget(t, e, k))
    decreases |events|
  {
    if events != [] {
      ForgetStep(s, events[0], e, k);
      SentGrows(s, events[0], e);
      EnvsKeep(Forget(s, e, k), events[0]);
      hide Next, Possible, Assumed, EnvsOk, Forget;
      NeverReturned(Next(s, events[0]), events[1..], e, k);
    }
  }

  lemma SentGrows(s: State, ev: Event, e: nat)
    requires e < |s| && Possible(s, ev)
    ensures e < |Next(s, ev)| && s[e].sent <= Next(s, ev)[e].sent
  {
  }

  /** Whatever follows, ipc_recv returns to environment 0 only messages sent after the lost one, in their order. */
  lemma LostForGood(events: seq<Event>)
    requires Runs(Lost(), events)
    ensures var t := After(Lost(), events);
            && |t| > 0 && [Msg(1, 7)] <= t[0].sent && t[0].got <= AllReturned(t[0].sent[1..])
  {
    var s := Lost();
    assert Forget(s, 0, 1)[0].sent == [];
    assert EnvsOk(Forget(s, 0, 1));
    NeverReturned(s, events, 0, 1);
    var t := After(s, events);
    assert EnvOk(Forget(t, 0, 1)[0]);
  }
}
