/**
 The blocking protocol of the lock manager as a step machine. Every critical section under the
 mutex is one step; a release notifies the condition variable in a separate, later step, because
 the mutex is dropped in between. A transaction has at most one call outstanding.
 */
module LockProtocol {
  import opened Locks

  datatype Waiter = Waiter(txn: nat, mode: Mode)

  /** What the thread of a transaction is doing. `timed` tells tryAcquireKey from acquireKey;
      `notified` is set by a notify_all that came after the thread last went to sleep. */
  datatype Call =
    | Idle
    | Asleep(key: Resource, mode: Mode, timed: bool, notified: bool)
    | Notifying

  datatype State = State(held: Held, waiters: map<Resource, seq<Waiter>>, calls: map<nat, Call>)

  function CallOf(s: State, txn: nat): Call {
    if txn in s.calls then s.calls[txn] else Idle
  }

  function WaitersOn(s: State, key: Resource): seq<Waiter> {
    if key in s.waiters then s.waiters[key] else []
  }

  /** The list without the first entry of the transaction. */
  function Dropped(ws: seq<Waiter>, txn: nat): seq<Waiter> {
    if ws == [] then []
    else if ws[0].txn == txn then ws[1..]
    else [ws[0]] + Dropped(ws[1..], txn)
  }

  datatype Step =
    | Begin(txn: nat, key: Resource, mode: Mode, timed: bool)
    | Wake(txn: nat)
    | TimeOut(txn: nat)
    | Release(txn: nat)
    | ReleaseKey(txn: nat, key: Resource)
    | Notify(txn: nat)

  /** A thread may wake at any time, notified or not. */
  predicate Enabled(s: State, step: Step) {
    match step
    case Begin(txn, _, _, _) => CallOf(s, txn).Idle?
    case Wake(txn) => CallOf(s, txn).Asleep?
    case TimeOut(txn) => CallOf(s, txn).Asleep? && CallOf(s, txn).timed
    case Release(txn) => CallOf(s, txn).Idle?
    case ReleaseKey(txn, _) => CallOf(s, txn).Idle?
    case Notify(txn) => CallOf(s, txn).Notifying?
  }

  /** Registers the caller as a waiter and puts it to sleep. */
  function Sleep(s: State, txn: nat, key: Resource, mode: Mode, timed: bool): State {
    s.(waiters := s.waiters[key := WaitersOn(s, key) + [Waiter(txn, mode)]],
       calls := s.calls[txn := Asleep(key, mode, timed, false)])
  }

  function Grant(s: State, txn: nat, key: Resource, mode: Mode): State {
    s.(held := Granted(s.held, txn, key, mode), calls := s.calls[txn := Idle])
  }

  function Unregister(s: State, txn: nat, key: Resource): State {
    s.(waiters := s.waiters[key := Dropped(WaitersOn(s, key), txn)])
  }

  function Woken(c: Call): Call {
    if c.Asleep? then c.(notified := true) else c
  }

  /** A release notifies only if it removed a holder. */
  function AfterRelease(s: State, txn: nat, held: Held): State {
    if held == s.held then s else s.(held := held, calls := s.calls[txn := Notifying])
  }

  function Next(s: State, step: Step): State
    requires Enabled(s, step)
  {
    match step
    case Begin(txn, key, mode, timed) =>
      if Grantable(s.held, txn, key, mode) then Grant(s, txn, key, mode) else Sleep(s, txn, key, mode, timed)
    case Wake(txn) =>
      var Asleep(key, mode, timed, _) := s.calls[txn];
      if Grantable(s.held, txn, key, mode) then Grant(Unregister(s, txn, key), txn, key, mode)
      else if timed then s.(calls := s.calls[txn := Asleep(key, mode, timed, false)])
      else Sleep(Unregister(s, txn, key), txn, key, mode, timed)
    case TimeOut(txn) =>
      var key := s.calls[txn].key;
      var s' := Unregister(s, txn, key);
      s'.(waiters := if WaitersOn(s', key) == [] then s'.waiters - {key} else s'.waiters,
          calls := s.calls[txn := Idle])
    case Release(txn) => AfterRelease(s, txn, Released(s.held, txn))
    case ReleaseKey(txn, key) => AfterRelease(s, txn, ReleasedKey(s.held, txn, key))
    case Notify(txn) =>
      s.(calls := map t | t in s.calls :: if t == txn then Idle else Woken(s.calls[t]))
  }

  // ----- the invariant -----

  predicate NotifyPending(s: State) {
    exists u :: u in s.calls && s.calls[u].Notifying?
  }

  /** A sleeper that no notify has reached since it fell asleep. */
  predicate SleepsUnnotified(c: Call) {
    c.Asleep? && !c.notified
  }

  /** No lost wake-up: a sleeper that could be granted has been notified, or a notify is on its way. */
  predicate NoLostWakeup(s: State) {
    forall t :: t in s.calls && SleepsUnnotified(s.calls[t]) ==>
      !Grantable(s.held, t, s.calls[t].key, s.calls[t].mode) || NotifyPending(s)
  }

  predicate SleepsOn(c: Call, key: Resource, mode: Mode) {
    c.Asleep? && c.key == key && c.mode == mode
  }

  /** How often the waiter table should list a waiter. */
  function Expected(s: State, key: Resource, w: Waiter): nat {
    if SleepsOn(CallOf(s, w.txn), key, w.mode) then 1 else 0
  }

  /** The waiter table lists exactly the sleeping calls, each once. */
  ghost predicate TableExact(s: State) {
    forall key, w :: multiset(WaitersOn(s, key))[w] == Expected(s, key, w)
  }

  ghost predicate Inv(s: State) {
    HeldOk(s.held) && NoLostWakeup(s) && TableExact(s)
  }

  const START := State(map[], map[], map[])

  /** Only sole holders upgrade. */
  predicate UpgradesAlone(s: State, step: Step) {
    match step
    case Begin(txn, key, mode, _) => !UpgradesBesideOthers(s.held, txn, key, mode)
    case Wake(txn) =>
      CallOf(s, txn).Asleep? ==> !UpgradesBesideOthers(s.held, txn, s.calls[txn].key, s.calls[txn].mode)
    case _ => true
  }

  // ----- the waiter table -----

  lemma {:induction false} DroppedOne(ws: seq<Waiter>, w: Waiter)
    requires multiset(ws)[w] == 1 && forall x :: x in ws && x.txn == w.txn ==> x == w
    ensures multiset(Dropped(ws, w.txn)) == multiset(ws) - multiset{w}
  {
    assert w in multiset(ws);
    assert ws == [ws[0]] + ws[1..];
    if ws[0].txn == w.txn {
      assert ws[0] in ws;
    } else {
      assert multiset(ws[1..])[w] == 1;
      DroppedOne(ws[1..], w);
      assert multiset(ws) == multiset{ws[0]} + multiset(ws[1..]);
      assert multiset(Dropped(ws, w.txn)) == multiset{ws[0]} + multiset(Dropped(ws[1..], w.txn));
    }
  }

  /** The table of s' lists what that of s should, except for one transaction. */
  ghost predicate ExactWithout(s: State, s': State, txn: nat) {
    forall k, w :: multiset(WaitersOn(s', k))[w] == if w.txn == txn then 0 else Expected(s, k, w)
  }

  /** A sleeper's own entry is what unregistering removes. */
  lemma UnregisterRemoves(s: State, txn: nat)
    requires TableExact(s) && CallOf(s, txn).Asleep?
    ensures var Asleep(key, mode, _, _) := s.calls[txn];
            var s' := Unregister(s, txn, key);
            && ExactWithout(s, s', txn)
            && multiset(WaitersOn(s', key)) == multiset(WaitersOn(s, key)) - multiset{Waiter(txn, mode)}
  {
    var Asleep(key, mode, _, _) := s.calls[txn];
    var ws, me := WaitersOn(s, key), Waiter(txn, mode);
    var s' := Unregister(s, txn, key);
    forall x | x in ws && x.txn == txn ensures x == me {
      assert multiset(ws)[x] > 0;
      assert multiset(ws)[x] == Expected(s, key, x);
    }
    assert multiset(ws)[me] == Expected(s, key, me);
    DroppedOne(ws, me);
    forall k, w ensures multiset(WaitersOn(s', k))[w] == if w.txn == txn then 0 else Expected(s, k, w) {
      assert multiset(WaitersOn(s, k))[w] == Expected(s, k, w);
    }
  }

  lemma SleepRegisters(s: State, txn: nat, key: Resource, mode: Mode, timed: bool)
    requires ExactWithout(s, s, txn)
    ensures TableExact(Sleep(s, txn, key, mode, timed))
  {
    var s', me := Sleep(s, txn, key, mode, timed), Waiter(txn, mode);
    assert multiset(WaitersOn(s', key)) == multiset(WaitersOn(s, key)) + multiset{me};
    forall k, w ensures multiset(WaitersOn(s', k))[w] == Expected(s', k, w) {
      assert multiset(WaitersOn(s, k))[w] == if w.txn == txn then 0 else Expected(s, k, w);
      assert k != key ==> WaitersOn(s', k) == WaitersOn(s, k);
    }
  }

  lemma StepKeepsTable(s: State, step: Step)
    requires TableExact(s) && Enabled(s, step)
    ensures TableExact(Next(s, step))
  {
    var s' := Next(s, step);
    match step {
      case Begin(txn, key, mode, timed) =>
        if Grantable(s.held, txn, key, mode) {
          TableFrame(s, s');
        } else {
          forall k, w ensures multiset(WaitersOn(s, k))[w] == if w.txn == txn then 0 else Expected(s, k, w) {
            assert multiset(WaitersOn(s, k))[w] == Expected(s, k, w);
          }
          SleepRegisters(s, txn, key, mode, timed);
        }
      case Wake(txn) => WakeKeepsTable(s, txn);
      case TimeOut(txn) => TimeOutKeepsTable(s, txn);
      case _ => TableFrame(s, s');
    }
  }

  /** The table stays exact if no list changes and nobody falls asleep or wakes up. */
  lemma TableFrame(s: State, s': State)
    requires TableExact(s) && s'.waiters == s.waiters
    requires forall t, k, m :: SleepsOn(CallOf(s', t), k, m) <==> SleepsOn(CallOf(s, t), k, m)
    ensures TableExact(s')
  {
    forall k, w ensures multiset(WaitersOn(s', k))[w] == Expected(s', k, w) {
      assert multiset(WaitersOn(s, k))[w] == Expected(s, k, w);
    }
  }

  /** After a sleeper's entry is gone and the sleeper with it, the table is exact again. */
  lemma TableWithout(s: State, s1: State, s': State, txn: nat)
    requires ExactWithout(s, s1, txn)
    requires forall k :: WaitersOn(s', k) == WaitersOn(s1, k)
    requires !CallOf(s', txn).Asleep? && forall t :: t != txn ==> CallOf(s', t) == CallOf(s, t)
    ensures TableExact(s')
  {
    forall k, w ensures multiset(WaitersOn(s', k))[w] == Expected(s', k, w) {
      assert multiset(WaitersOn(s1, k))[w] == if w.txn == txn then 0 else Expected(s, k, w);
    }
  }

  lemma TimeOutKeepsTable(s: State, txn: nat)
    requires TableExact(s) && CallOf(s, txn).Asleep? && s.calls[txn].timed
    ensures TableExact(Next(s, TimeOut(txn)))
  {
    hide TableExact, Granted, Dropped;
    GivenUp(s, txn, Next(s, TimeOut(txn)));
  }

  lemma GivenUp(s: State, txn: nat, s': State)
    requires TableExact(s) && CallOf(s, txn).Asleep?
    requires var s1 := Unregister(s, txn, s.calls[txn].key);
             s'.calls == s.calls[txn := Idle] && forall k :: WaitersOn(s', k) == WaitersOn(s1, k)
    ensures TableExact(s')
  {
    hide TableExact, ExactWithout, Granted, Dropped;
    UnregisterRemoves(s, txn);
    TableWithout(s, Unregister(s, txn, s.calls[txn].key), s', txn);
  }

  lemma WakeKeepsTable(s: State, txn: nat)
    requires TableExact(s) && CallOf(s, txn).Asleep?
    ensures TableExact(Next(s, Wake(txn)))
  {
    var Asleep(key, mode, timed, _) := s.calls[txn];
    if Grantable(s.held, txn, key, mode) {
      WakeGranted(s, txn, Next(s, Wake(txn)));
    } else if timed {
      TableFrame(s, Next(s, Wake(txn)));
    } else {
      WakeAgain(s, txn, Next(s, Wake(txn)));
    }
  }

  lemma WakeGranted(s: State, txn: nat, s': State)
    requires TableExact(s) && CallOf(s, txn).Asleep?
    requires s' == Grant(Unregister(s, txn, s.calls[txn].key), txn, s.calls[txn].key, s.calls[txn].mode)
    ensures TableExact(s')
  {
    hide TableExact, ExactWithout, Granted, Dropped;
    UnregisterRemoves(s, txn);
    TableWithout(s, Unregister(s, txn, s.calls[txn].key), s', txn);
  }

  lemma WakeAgain(s: State, txn: nat, s': State)
    requires TableExact(s) && CallOf(s, txn).Asleep?
    requires var c := s.calls[txn]; s' == Sleep(Unregister(s, txn, c.key), txn, c.key, c.mode, c.timed)
    ensures TableExact(s')
  {
    hide TableExact, ExactWithout, Dropped;
    var c := s.calls[txn];
    var s1 := Unregister(s, txn, c.key);
    UnregisterRemoves(s, txn);
    StillWithout(s, s1, txn);
    SleepRegisters(s1, txn, c.key, c.mode, c.timed);
  }

  lemma StillWithout(s: State, s1: State, txn: nat)
    requires ExactWithout(s, s1, txn) && s1.calls == s.calls
    ensures ExactWithout(s1, s1, txn)
  {
    forall k, w ensures multiset(WaitersOn(s1, k))[w] == if w.txn == txn then 0 else Expected(s1, k, w) {
      assert multiset(WaitersOn(s1, k))[w] == if w.txn == txn then 0 else Expected(s, k, w);
    }
  }

  // ----- wake-ups -----

  /** Granting one transaction never makes the request of another one grantable. */
  lemma GrantWakesNobody(held: Held, txn: nat, key: Resource, mode: Mode, other: nat, k: Resource, m: Mode)
    requires other != txn && Grantable(held, txn, key, mode) && !Grantable(held, other, k, m)
    ensures !Grantable(Granted(held, txn, key, mode), other, k, m)
  {
  }

  lemma StepKeepsWakeups(s: State, step: Step)
    requires NoLostWakeup(s) && Enabled(s, step)
    ensures NoLostWakeup(Next(s, step))
  {
    var s' := Next(s, step);
    if step.Notify? {
      assert forall t :: t in s'.calls ==> !SleepsUnnotified(s'.calls[t]);
    } else if (step.Release? || step.ReleaseKey?) && s'.held != s.held {
      assert s'.calls[step.txn].Notifying?;
    } else if step.TimeOut? {
      TimeOutKeepsWakeups(s, step.txn);
    } else {
      forall t | t in s'.calls && SleepsUnnotified(s'.calls[t])
        ensures !Grantable(s'.held, t, s'.calls[t].key, s'.calls[t].mode) || NotifyPending(s')
      {
        if t != step.txn {
          OtherStaysAsleep(s, step, t);
        }
      }
    }
  }

  lemma TimeOutKeepsWakeups(s: State, txn: nat)
    requires NoLostWakeup(s) && CallOf(s, txn).Asleep? && s.calls[txn].timed
    ensures NoLostWakeup(Next(s, TimeOut(txn)))
  {
    var s' := Next(s, TimeOut(txn));
    PendingKept(s, s', txn);
    forall t | t in s'.calls && SleepsUnnotified(s'.calls[t])
      ensures !Grantable(s'.held, t, s'.calls[t].key, s'.calls[t].mode) || NotifyPending(s')
    {
      assert t in s.calls && s.calls[t] == s'.calls[t];
    }
  }

  /** A pending notify of another thread stays pending. */
  lemma PendingKept(s: State, s': State, txn: nat)
    requires CallOf(s, txn).Idle? || CallOf(s, txn).Asleep?
    requires forall t :: t in s.calls && t != txn ==> t in s'.calls && s'.calls[t] == s.calls[t]
    ensures NotifyPending(s) ==> NotifyPending(s')
  {
    if NotifyPending(s) {
      var u :| u in s.calls && s.calls[u].Notifying?;
      assert s'.calls[u].Notifying?;
    }
  }

  lemma OtherStaysAsleep(s: State, step: Step, t: nat)
    requires NoLostWakeup(s) && Enabled(s, step) && t != step.txn && !step.Notify? && !step.TimeOut?
    requires (step.Release? || step.ReleaseKey?) ==> Next(s, step).held == s.held
    requires t in Next(s, step).calls && SleepsUnnotified(Next(s, step).calls[t])
    ensures var s' := Next(s, step);
            !Grantable(s'.held, t, s'.calls[t].key, s'.calls[t].mode) || NotifyPending(s')
  {
    var s' := Next(s, step);
    PendingKept(s, s', step.txn);
    assert t in s.calls && s.calls[t] == s'.calls[t];
    if step.Begin? && Grantable(s.held, step.txn, step.key, step.mode) && !NotifyPending(s) {
      GrantWakesNobody(s.held, step.txn, step.key, step.mode, t, s.calls[t].key, s.calls[t].mode);
    } else if step.Wake? && !NotifyPending(s) {
      var c := s.calls[step.txn];
      if Grantable(s.held, step.txn, c.key, c.mode) {
        GrantWakesNobody(s.held, step.txn, c.key, c.mode, t, s.calls[t].key, s.calls[t].mode);
      }
    }
  }

  // ----- runs -----

  lemma OneEvent(held: Held, e: Event)
    ensures AllowedRun(held, [e]) <==> Allowed(held, e)
    ensures AfterAll(held, [e]) == After(held, e)
  {
    assert [e][..0] == [];
    assert AllowedRun(held, []) && AfterAll(held, []) == held;
    assert AllowedRun(held, [e][..|[e]| - 1]);
  }

  /** What one step does to the lock table: nothing, or one event of the lock table on its own. */
  lemma StepIsEvent(s: State, step: Step) returns (es: seq<Event>)
    requires Enabled(s, step) && UpgradesAlone(s, step)
    ensures AllowedRun(s.held, es) && AfterAll(s.held, es) == Next(s, step).held
  {
    es := [];
    match step {
      case Begin(txn, key, mode, _) =>
        if Grantable(s.held, txn, key, mode) { es := [Acquire(txn, key, mode)]; }
      case Wake(txn) =>
        var c := s.calls[txn];
        if Grantable(s.held, txn, c.key, c.mode) { es := [Acquire(txn, c.key, c.mode)]; }
      case Release(txn) => es := [ReleaseAll(txn)];
      case ReleaseKey(txn, key) => es := [ReleaseOne(txn, key)];
      case _ =>
    }
    if es != [] {
      OneEvent(s.held, es[0]);
    }
  }

  lemma StepKeepsInv(s: State, step: Step)
    requires Inv(s) && Enabled(s, step) && UpgradesAlone(s, step)
    ensures Inv(Next(s, step))
  {
    StepKeepsTable(s, step);
    StepKeepsWakeups(s, step);
    match step
    case Begin(txn, key, mode, _) =>
      if Grantable(s.held, txn, key, mode) { GrantKeepsOk(s.held, txn, key, mode); }
    case Wake(txn) =>
      var c := s.calls[txn];
      if Grantable(s.held, txn, c.key, c.mode) { GrantKeepsOk(s.held, txn, c.key, c.mode); }
    case Release(txn) => ReleaseKeepsOk(s.held, txn);
    case ReleaseKey(txn, key) => ReleaseKeyKeepsOk(s.held, txn, key);
    case _ =>
  }

  ghost predicate IsRun(states: seq<State>, steps: seq<Step>) {
    && |states| == |steps| + 1 && states[0] == START
    && forall i :: 0 <= i < |steps| ==> Enabled(states[i], steps[i]) && states[i + 1] == Next(states[i], steps[i])
  }

  /** In every reachable state no wake-up is lost and the waiter table lists exactly the sleeping
      calls, through timeouts, spurious wakes and upgrades of any kind. */
  lemma {:induction false} RunKeepsWakeups(states: seq<State>, steps: seq<Step>, n: nat)
    requires IsRun(states, steps) && n <= |steps|
    ensures NoLostWakeup(states[n]) && TableExact(states[n])
  {
    if n == 0 {
      assert forall key, w :: multiset(WaitersOn(START, key))[w] == 0;
    } else {
      RunKeepsWakeups(states, steps, n - 1);
      StepKeepsTable(states[n - 1], steps[n - 1]);
      StepKeepsWakeups(states[n - 1], steps[n - 1]);
    }
  }

  /** Where only sole holders upgrade, the lock table is sound in every reachable state too. */
  lemma {:induction false} RunKeepsInv(states: seq<State>, steps: seq<Step>, n: nat)
    requires IsRun(states, steps) && n <= |steps|
    requires forall i :: 0 <= i < n ==> UpgradesAlone(states[i], steps[i])
    ensures Inv(states[n])
  {
    if n == 0 {
      RunKeepsWakeups(states, steps, n);
    } else {
      RunKeepsInv(states, steps, n - 1);
      StepKeepsInv(states[n - 1], steps[n - 1]);
    }
  }

  /** Upgrades of any kind included, no lock entry is without a holder. */
  lemma {:induction false} RunKeepsNoneEmpty(states: seq<State>, steps: seq<Step>, n: nat)
    requires IsRun(states, steps) && n <= |steps|
    ensures NoneEmpty(states[n].held)
  {
    if n > 0 {
      RunKeepsNoneEmpty(states, steps, n - 1);
      StepKeepsNoneEmpty(states[n - 1], steps[n - 1]);
    }
  }

  lemma StepKeepsNoneEmpty(s: State, step: Step)
    requires NoneEmpty(s.held) && Enabled(s, step)
    ensures NoneEmpty(Next(s, step).held)
  {
    hide Granted, Released, ReleasedKey;
    match step
    case Begin(txn, key, mode, _) => EventKeepsNoneEmpty(s.held, Acquire(txn, key, mode));
    case Wake(txn) => EventKeepsNoneEmpty(s.held, Acquire(txn, s.calls[txn].key, s.calls[txn].mode));
    case Release(txn) => EventKeepsNoneEmpty(s.held, ReleaseAll(txn));
    case ReleaseKey(txn, key) => EventKeepsNoneEmpty(s.held, ReleaseOne(txn, key));
    case _ =>
  }

  /** What the caller asked for when it entered the call or went to sleep. */
  predicate Asks(s: State, step: Step, key: Resource, mode: Mode) {
    match step
    case Begin(_, k, m, _) => key == k && mode == m
    case Wake(txn) => SleepsOn(CallOf(s, txn), key, mode)
    case _ => false
  }

  /**
   At every point of every run, a thread that enters an acquire call or wakes in one is asleep
   afterwards exactly when another transaction holds the resource, it does not hold it itself, and one
   of the two is exclusive; otherwise it holds the resource afterwards, beside all who held it before.
   */
  lemma AcquireBlocksIff(states: seq<State>, steps: seq<Step>, n: nat, step: Step, key: Resource, mode: Mode)
    requires IsRun(states, steps) && n <= |steps| && Enabled(states[n], step) && Asks(states[n], step, key, mode)
    ensures var s, s' := states[n], Next(states[n], step);
            && (CallOf(s', step.txn).Asleep? <==> Blocked(s.held, step.txn, key, mode))
            && (!CallOf(s', step.txn).Asleep? ==>
                forall t, k :: Holds(s'.held, t, k) <==> Holds(s.held, t, k) || (t == step.txn && k == key))
            && (CallOf(s', step.txn).Asleep? ==> s'.held == s.held)
  {
    hide Grantable, Granted, Blocked, Holds;
    RunKeepsNoneEmpty(states, steps, n);
    GrantableIff(states[n].held, step.txn, key, mode);
    if Grantable(states[n].held, step.txn, key, mode) {
      GrantAdds(states[n].held, step.txn, key, mode);
    }
  }

  /** Whoever asks to share what others only share gets it at once, and they keep it. */
  lemma SharersJoin(s: State, txn: nat, key: Resource, timed: bool)
    requires CallOf(s, txn).Idle? && key in s.held && s.held[key].mode == Shared
    ensures var s' := Next(s, Begin(txn, key, Shared, timed));
            && CallOf(s', txn).Idle? && Holds(s'.held, txn, key) && s'.held[key].mode == Shared
            && forall h :: Holds(s.held, h, key) ==> Holds(s'.held, h, key)
  {
  }

  /** Once every notify has gone out and every notified thread has run, whoever still sleeps is
      blocked by another transaction. */
  lemma QuiescentSleepersBlocked(states: seq<State>, steps: seq<Step>, n: nat, t: nat)
    requires IsRun(states, steps) && n <= |steps|
    requires forall u :: u in states[n].calls ==>
               !states[n].calls[u].Notifying? && (states[n].calls[u].Asleep? ==> !states[n].calls[u].notified)
    requires CallOf(states[n], t).Asleep?
    ensures !Grantable(states[n].held, t, states[n].calls[t].key, states[n].calls[t].mode)
    ensures Blocked(states[n].held, t, states[n].calls[t].key, states[n].calls[t].mode)
  {
    RunKeepsWakeups(states, steps, n);
    RunKeepsNoneEmpty(states, steps, n);
    GrantableIff(states[n].held, t, states[n].calls[t].key, states[n].calls[t].mode);
    assert SleepsUnnotified(states[n].calls[t]);
  }
}
