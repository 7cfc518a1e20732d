/** `CFutureLogger` of src/base/log.cpp as a step system: one call of `Set`, and any number of calls of `Log`, each in
    a thread of its own. */
module FutureLogger {

  /** A message, and the call of `Log` it came with. */
  datatype Entry = Entry(call: nat, text: string)

  datatype Owner = Nobody | Setter | Caller(call: nat)

  /** Where `Set` is. */
  datatype SetPc =
    | NotCalled
    | Locked             // holds the lock, before the exchange
    | Flushing(k: nat)   // the logger is set, `k` pending messages were passed on
    | Cleared            // before the unlock
    | Released

  /** Where a call of `Log` is. */
  datatype LogPc =
    | AtCheck            // before the first load
    | Passing            // saw a logger, passes the message on without the lock
    | AtLock             // saw none, wants the lock
    | AtRecheck          // holds the lock, before the second load
    | PassingLocked      // saw a logger under the lock
    | Pushing            // saw none under the lock
    | Unlocking
    | Returned

  datatype Call = Call(text: string, pc: LogPc)

  datatype State = State(
    isSet: bool,                // `m_pLogger` is not null
    pending: seq<Entry>,        // `m_vPending`
    lock: Owner,
    setter: SetPc,
    calls: map<nat, Call>,
    passed: seq<Entry>)         // calls of the final logger's `Log`

  datatype Action =
    | SetLock | SetExchange | SetFlush | SetClear | SetUnlock
    | Begin(call: nat, text: string)
    | Check(call: nat) | Pass(call: nat)
    | TakeLock(call: nat) | Recheck(call: nat) | Push(call: nat) | Unlock(call: nat)

  predicate Init(s: State) {
    s == State(false, [], Nobody, NotCalled, map[], [])
  }

  predicate IsAt(s: State, c: nat, pc: LogPc) {
    c in s.calls && s.calls[c].pc == pc
  }

  predicate Enabled(s: State, a: Action) {
    match a
    case SetLock => s.setter == NotCalled && s.lock == Nobody
    case SetExchange => s.setter == Locked
    case SetFlush => s.setter.Flushing? && s.setter.k < |s.pending|
    case SetClear => s.setter.Flushing? && s.setter.k >= |s.pending|
    case SetUnlock => s.setter == Cleared
    case Begin(c, _) => c !in s.calls
    case Check(c) => IsAt(s, c, AtCheck)
    case Pass(c) => IsAt(s, c, Passing) || IsAt(s, c, PassingLocked)
    case TakeLock(c) => IsAt(s, c, AtLock) && s.lock == Nobody
    case Recheck(c) => IsAt(s, c, AtRecheck)
    case Push(c) => IsAt(s, c, Pushing)
    case Unlock(c) => IsAt(s, c, Unlocking)
  }

  function Goto(s: State, c: nat, pc: LogPc): State
    requires c in s.calls
  {
    s.(calls := s.calls[c := s.calls[c].(pc := pc)])
  }

  function Message(s: State, c: nat): Entry
    requires c in s.calls
  {
    Entry(c, s.calls[c].text)
  }

  function Do(s: State, a: Action): State
    requires Enabled(s, a)
  {
    match a
    case SetLock => s.(lock := Setter, setter := Locked)
    case SetExchange => s.(isSet := true, setter := Flushing(0))
    case SetFlush => s.(passed := s.passed + [s.pending[s.setter.k]], setter := Flushing(s.setter.k + 1))
    case SetClear => s.(pending := [], setter := Cleared)
    case SetUnlock => s.(lock := Nobody, setter := Released)
    case Begin(c, text) => s.(calls := s.calls[c := Call(text, AtCheck)])
    case Check(c) => Goto(s, c, if s.isSet then Passing else AtLock)
    case Pass(c) =>
      Goto(s, c, if s.calls[c].pc == Passing then Returned else Unlocking).(passed := s.passed + [Message(s, c)])
    case TakeLock(c) => Goto(s, c, AtRecheck).(lock := Caller(c))
    case Recheck(c) => Goto(s, c, if s.isSet then PassingLocked else Pushing)
    case Push(c) => Goto(s, c, Unlocking).(pending := s.pending + [Message(s, c)])
    case Unlock(c) => Goto(s, c, Returned).(lock := Nobody)
  }

  // The invariant.

  predicate HoldsLock(pc: LogPc) {
    pc == AtRecheck || pc == PassingLocked || pc == Pushing || pc == Unlocking
  }

  ghost predicate LockIsHeld(s: State) {
    && (s.lock == Setter <==> s.setter == Locked || s.setter.Flushing? || s.setter == Cleared)
    && forall c :: s.lock == Caller(c) <==> c in s.calls && HoldsLock(s.calls[c].pc)
  }

  /** Who saw what is still true. */
  ghost predicate ViewsHold(s: State) {
    && (s.isSet <==> s.setter.Flushing? || s.setter == Cleared || s.setter == Released)
    && forall c :: c in s.calls ==>
         && (s.calls[c].pc == Passing || s.calls[c].pc == PassingLocked ==> s.isSet)
         && (s.calls[c].pc == Pushing ==> !s.isSet)
  }

  /** The pending messages that were not yet passed on. */
  function Waiting(s: State): seq<Entry> {
    if s.setter.Flushing? && s.setter.k <= |s.pending| then s.pending[s.setter.k..] else s.pending
  }

  predicate NothingPending(s: State) {
    && (s.setter.Flushing? ==> s.setter.k <= |s.pending|)
    && (s.setter == Cleared || s.setter == Released ==> s.pending == [])
  }

  /** Whether a call has handed its message over, to the logger or to the pending list. */
  predicate HandedOver(s: State, e: Entry) {
    e.call in s.calls && s.calls[e.call].text == e.text &&
    (s.calls[e.call].pc == Unlocking || s.calls[e.call].pc == Returned)
  }

  /** How often a message was passed on or waits to be. */
  function Copies(s: State, e: Entry): nat {
    multiset(s.passed)[e] + multiset(Waiting(s))[e]
  }

  /** Every message handed over is in one place, once; no other message is anywhere. */
  ghost predicate Conserved(s: State) {
    forall e :: Copies(s, e) == if HandedOver(s, e) then 1 else 0
  }

  ghost predicate Inv(s: State) {
    LockIsHeld(s) && ViewsHold(s) && NothingPending(s) && Conserved(s)
  }

  lemma InitKeeps(s: State)
    requires Init(s)
    ensures Inv(s)
  {
  }

  lemma StepKeepsLock(s: State, a: Action)
    requires Inv(s) && Enabled(s, a)
    ensures LockIsHeld(Do(s, a)) && NothingPending(Do(s, a))
  {
    hide Conserved;
  }

  lemma StepKeepsViews(s: State, a: Action)
    requires Inv(s) && Enabled(s, a)
    ensures ViewsHold(Do(s, a))
  {
    hide Conserved;
  }

  /** What a step adds to the messages passed on or waiting. */
  function Added(s: State, a: Action): multiset<Entry>
    requires Enabled(s, a)
  {
    if a.Pass? || a.Push? then multiset{Message(s, a.call)} else multiset{}
  }

  lemma FlushAdds(s: State, e: Entry)
    requires Enabled(s, SetFlush)
    ensures Copies(Do(s, SetFlush), e) == Copies(s, e)
  {
    assert Waiting(s) == [s.pending[s.setter.k]] + Waiting(Do(s, SetFlush));
  }

  lemma CallAdds(s: State, a: Action, e: Entry)
    requires ViewsHold(s) && Enabled(s, a) && (a.Pass? || a.Push?)
    ensures Copies(Do(s, a), e) == Copies(s, e) + Added(s, a)[e]
  {
  }

  lemma StepAdds(s: State, a: Action, e: Entry)
    requires Inv(s) && Enabled(s, a)
    ensures Copies(Do(s, a), e) == Copies(s, e) + Added(s, a)[e]
  {
    if a.SetFlush? {
      FlushAdds(s, e);
    } else if a.Pass? || a.Push? {
      CallAdds(s, a, e);
    } else {
      hide Conserved, LockIsHeld, ViewsHold, HandedOver;
      assert Waiting(Do(s, a)) == Waiting(s);
    }
  }

  lemma StepHandsOver(s: State, a: Action, e: Entry)
    requires Inv(s) && Enabled(s, a)
    ensures HandedOver(Do(s, a), e) <==> HandedOver(s, e) || e in Added(s, a)
    ensures e in Added(s, a) ==> !HandedOver(s, e)
    ensures Added(s, a)[e] <= 1
  {
    hide Conserved, Waiting, NothingPending, LockIsHeld, ViewsHold;
  }

  lemma StepKeeps(s: State, a: Action)
    requires Inv(s) && Enabled(s, a)
    ensures Inv(Do(s, a))
  {
    hide Enabled, Do, LockIsHeld, ViewsHold, NothingPending, Added, Copies, HandedOver;
    StepKeepsLock(s, a);
    StepKeepsViews(s, a);
    forall e
      ensures Copies(Do(s, a), e) == if HandedOver(Do(s, a), e) then 1 else 0
    {
      StepAdds(s, a, e);
      StepHandsOver(s, a, e);
    }
  }

  // Runs.

  ghost predicate IsRun(states: seq<State>, actions: seq<Action>) {
    && |states| == |actions| + 1
    && Init(states[0])
    && forall i :: 0 <= i < |actions| ==> Next(states[i], actions[i], states[i + 1])
  }

  ghost predicate Next(s: State, a: Action, s': State) {
    Enabled(s, a) && s' == Do(s, a)
  }

  lemma {:induction false} RunKeeps(states: seq<State>, actions: seq<Action>, i: nat)
    requires IsRun(states, actions) && i < |states|
    ensures Inv(states[i])
  {
    hide Init, Enabled, Do, Inv;
    if i == 0 {
      InitKeeps(states[0]);
    } else {
      RunKeeps(states, actions, i - 1);
      assert Next(states[i - 1], actions[i - 1], states[i]);
      StepKeeps(states[i - 1], actions[i - 1]);
    }
  }

  /** Whatever the interleaving: once `Set` has released its lock, every `Log` call that has returned had its message
      passed to the final logger exactly once, and no message was passed on that nobody logged. */
  lemma DeliveredExactlyOnce(states: seq<State>, actions: seq<Action>, i: nat, e: Entry)
    requires IsRun(states, actions) && i < |states| && states[i].setter == Released
    ensures var s := states[i];
            && (IsAt(s, e.call, Returned) && s.calls[e.call].text == e.text ==> multiset(s.passed)[e] == 1)
            && (e in s.passed ==> multiset(s.passed)[e] == 1 && HandedOver(s, e))
  {
    RunKeeps(states, actions, i);
    hide IsRun, LockIsHeld, ViewsHold;
    assert Copies(states[i], e) == multiset(states[i].passed)[e];
  }

  /** Before that, a message whose call has returned was passed on or waits in the pending list, never both. */
  lemma NeverLost(states: seq<State>, actions: seq<Action>, i: nat, c: nat)
    requires IsRun(states, actions) && i < |states| && IsAt(states[i], c, Returned)
    ensures var s := states[i]; multiset(s.passed)[Message(s, c)] + multiset(Waiting(s))[Message(s, c)] == 1
  {
    RunKeeps(states, actions, i);
    hide IsRun, LockIsHeld, ViewsHold, Waiting;
    assert Copies(states[i], Message(states[i], c)) == 1;
  }

  /** After `Set` has released its lock nothing is pending again. */
  lemma {:induction false} PendingStaysEmpty(states: seq<State>, actions: seq<Action>, i: nat, j: nat)
    requires IsRun(states, actions) && i <= j < |states| && states[i].setter == Released
    ensures states[j].setter == Released && states[j].pending == [] && states[j].isSet
  {
    RunKeeps(states, actions, j);
    hide LockIsHeld, Conserved;
    if i < j {
      PendingStaysEmpty(states, actions, i, j - 1);
      assert Next(states[j - 1], actions[j - 1], states[j]);
    }
  }

  /** `Set` still has pending messages to pass on. */
  predicate FlushIsUnderWay(s: State) {
    s.setter.Flushing? && s.setter.k < |s.pending|
  }

  lemma NothingWaits(s: State, a: Action)
    requires Inv(s) && Enabled(s, a) && a.Pass? && !FlushIsUnderWay(s)
    ensures Waiting(s) == []
  {
    hide Conserved, LockIsHeld;
    assert s.setter != NotCalled && s.setter != Locked;
  }

  /** The next pending message belongs to a call that has returned, and was not passed on. */
  lemma NextPendingIsLate(s: State) returns (c: nat)
    requires Inv(s) && FlushIsUnderWay(s)
    ensures IsAt(s, c, Returned) && Message(s, c) !in s.passed
  {
    hide ViewsHold;
    var e := s.pending[s.setter.k];
    assert e == Waiting(s)[0];
    assert Copies(s, e) >= 1 && HandedOver(s, e);
    c := e.call;
    assert s.lock == Setter;
  }

  /** When a message is passed on, all messages of calls that have returned were passed on before it, except while the
      flush is under way: then one of them is still waiting. */
  lemma InOrderIff(states: seq<State>, actions: seq<Action>, i: nat)
    requires IsRun(states, actions) && i < |actions| && actions[i].Pass?
    ensures (forall c :: IsAt(states[i], c, Returned) ==> Message(states[i], c) in states[i].passed)
            <==> !FlushIsUnderWay(states[i])
  {
    var s := states[i];
    RunKeeps(states, actions, i);
    assert Next(s, actions[i], states[i + 1]);
    hide IsRun, LockIsHeld, ViewsHold, Waiting;
    if FlushIsUnderWay(s) {
      var c := NextPendingIsLate(s);
    } else {
      NothingWaits(s, actions[i]);
      forall c | IsAt(s, c, Returned)
        ensures Message(s, c) in s.passed
      {
        assert Copies(s, Message(s, c)) == 1;
      }
    }
  }

  lemma Extend(states: seq<State>, actions: seq<Action>, a: Action) returns (states': seq<State>, actions': seq<Action>)
    requires IsRun(states, actions) && Enabled(states[|actions|], a)
    ensures states' == states + [Do(states[|actions|], a)] && actions' == actions + [a]
    ensures IsRun(states', actions')
  {
    states', actions' := states + [Do(states[|actions|], a)], actions + [a];
  }

  lemma OneMessagePends() returns (states: seq<State>, actions: seq<Action>)
    ensures IsRun(states, actions)
    ensures states[|actions|] == State(false, [Entry(0, "a")], Nobody, NotCalled, map[0 := Call("a", Returned)], [])
  {
    hide IsRun;
    states, actions := [State(false, [], Nobody, NotCalled, map[], [])], [];
    assert IsRun(states, actions) by {
      Start(states, actions);
    }
    states, actions := Extend(states, actions, Begin(0, "a"));
    states, actions := Extend(states, actions, Check(0));
    states, actions := Extend(states, actions, TakeLock(0));
    states, actions := Extend(states, actions, Recheck(0));
    states, actions := Extend(states, actions, Push(0));
    states, actions := Extend(states, actions, Unlock(0));
  }

  lemma Start(states: seq<State>, actions: seq<Action>)
    requires states == [State(false, [], Nobody, NotCalled, map[], [])] && actions == []
    ensures IsRun(states, actions)
  {
  }

  /** A run in which that happens: call 0 has returned before call 1 begins, and is passed on after it. */
  lemma FlushIsOvertaken() returns (states: seq<State>, actions: seq<Action>, i: nat)
    ensures IsRun(states, actions)
    ensures i < |actions| && IsAt(states[i], 0, Returned) && actions[i] == Begin(1, "b")
    ensures states[|actions|].passed == [Entry(1, "b"), Entry(0, "a")]
  {
    hide IsRun;
    states, actions := OneMessagePends();
    states, actions := Extend(states, actions, SetLock);
    states, actions := Extend(states, actions, SetExchange);
    i := |actions|;
    states, actions := Extend(states, actions, Begin(1, "b"));
    states, actions := Extend(states, actions, Check(1));
    states, actions := Extend(states, actions, Pass(1));
    states, actions := Extend(states, actions, SetFlush);
  }

  // Every call comes to its end.

  /** An upper bound on the steps a call has left, and the flush has left for its message. */
  function Rank(pc: LogPc): nat {
    match pc
    case AtCheck => 6
    case AtLock => 5
    case AtRecheck => 4
    case Pushing => 3
    case PassingLocked => 2
    case Passing => 1
    case Unlocking => 1
    case Returned => 0
  }

  function SetRank(s: State): nat {
    match s.setter
    case NotCalled => |s.pending| + 5
    case Locked => |s.pending| + 4
    case Flushing(k) => (if k <= |s.pending| then |s.pending| - k else 0) + 3
    case Cleared => 2
    case Released => 0
  }

  ghost function CallsWork(calls: map<nat, Call>): nat {
    if calls == map[] then 0
    else
      var c :| c in calls;
      Rank(calls[c].pc) + CallsWork(calls - {c})
  }

  ghost function Work(s: State): nat {
    SetRank(s) + CallsWork(s.calls)
  }

  /** The sum does not depend on which call is counted first. */
  lemma {:induction false} CallsWorkWithout(calls: map<nat, Call>, c: nat)
    requires c in calls
    ensures CallsWork(calls) == Rank(calls[c].pc) + CallsWork(calls - {c})
    decreases |calls|
  {
    hide Rank;
    var d :| d in calls && CallsWork(calls) == Rank(calls[d].pc) + CallsWork(calls - {d});
    if d != c {
      CallsWorkWithout(calls - {d}, c);
      CallsWorkWithout(calls - {c}, d);
      assert calls - {d} - {c} == calls - {c} - {d};
    }
  }

  lemma GotoWork(s: State, c: nat, pc: LogPc)
    requires c in s.calls
    ensures CallsWork(Goto(s, c, pc).calls) + Rank(s.calls[c].pc) == CallsWork(s.calls) + Rank(pc)
  {
    hide Rank;
    var calls := Goto(s, c, pc).calls;
    CallsWorkWithout(s.calls, c);
    CallsWorkWithout(calls, c);
    assert calls - {c} == s.calls - {c};
  }

  /** Each step of `Set` and of a call that has begun is progress. */
  lemma StepProgresses(s: State, a: Action)
    requires Inv(s) && Enabled(s, a) && !a.Begin?
    ensures Work(Do(s, a)) < Work(s)
  {
    hide Conserved, CallsWork;
    match a {
      case Check(c) => GotoWork(s, c, if s.isSet then Passing else AtLock);
      case Pass(c) => GotoWork(s, c, if s.calls[c].pc == Passing then Returned else Unlocking);
      case TakeLock(c) => GotoWork(s, c, AtRecheck);
      case Recheck(c) => GotoWork(s, c, if s.isSet then PassingLocked else Pushing);
      case Push(c) => GotoWork(s, c, Unlocking);
      case Unlock(c) => GotoWork(s, c, Returned);
      case _ =>
    }
  }

  /** `actions` lead from `s` to `s'`. */
  ghost predicate Leads(s: State, actions: seq<Action>, s': State)
    decreases |actions|
  {
    if actions == [] then s == s' else Enabled(s, actions[0]) && Leads(Do(s, actions[0]), actions[1..], s')
  }

  /** Without new calls no schedule goes on for more than `Work(s)` steps. */
  lemma {:induction false} CallsStop(s: State, actions: seq<Action>, s': State)
    requires Inv(s) && Leads(s, actions, s') && forall a: Action :: a in actions ==> !a.Begin?
    ensures Inv(s') && |actions| <= Work(s) - Work(s') && s'.calls.Keys == s.calls.Keys
    decreases |actions|
  {
    hide Inv, Work, Enabled, Do;
    if actions != [] {
      StepKeeps(s, actions[0]);
      StepProgresses(s, actions[0]);
      StepKeepsCalls(s, actions[0]);
      CallsStop(Do(s, actions[0]), actions[1..], s');
    }
  }

  lemma StepKeepsCalls(s: State, a: Action)
    requires Enabled(s, a) && !a.Begin?
    ensures Do(s, a).calls.Keys == s.calls.Keys
  {
  }

  /** Where it stops, every call has returned, and `Set`, if it was called, is done: nobody is ever stuck. */
  lemma RestIsDone(s: State)
    requires Inv(s) && forall a: Action :: !a.Begin? && !a.SetLock? ==> !Enabled(s, a)
    ensures forall c :: c in s.calls ==> IsAt(s, c, Returned)
    ensures s.setter == NotCalled || s.setter == Released
  {
    hide Conserved;
    assert !Enabled(s, Busy(s));
    assert s.lock.Caller? ==> !Enabled(s, CallStep(s, s.lock.call));
    forall c | c in s.calls
      ensures IsAt(s, c, Returned)
    {
      assert !Enabled(s, CallStep(s, c));
    }
  }

  /** Every maximal run of the calls that have begun ends with all of them returned. */
  lemma CallsComplete(s: State, actions: seq<Action>, s': State)
    requires Inv(s) && Leads(s, actions, s') && forall a: Action :: a in actions ==> !a.Begin?
    requires forall a: Action :: !a.Begin? && !a.SetLock? ==> !Enabled(s', a)
    ensures forall c :: c in s.calls ==> IsAt(s', c, Returned)
  {
    hide Inv, Leads, Enabled, Work;
    CallsStop(s, actions, s');
    RestIsDone(s');
  }

  function Busy(s: State): Action {
    if s.setter == Locked then SetExchange
    else if s.setter == Cleared then SetUnlock
    else if s.setter.Flushing? && s.setter.k < |s.pending| then SetFlush
    else SetClear
  }

  function CallStep(s: State, c: nat): Action
    requires c in s.calls
  {
    match s.calls[c].pc
    case AtCheck => Check(c)
    case AtLock => TakeLock(c)
    case AtRecheck => Recheck(c)
    case Pushing => Push(c)
    case Unlocking => Unlock(c)
    case _ => Pass(c)
  }
}
