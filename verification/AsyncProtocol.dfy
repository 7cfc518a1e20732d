/** The asynchronous writer of src/base/system.cpp as a step system: one worker thread and any number of clients
    around a lock, a counting semaphore and a reference count of two. A step is what a thread does between two
    points where another thread can get in its way. */
module AsyncProtocol {
  import opened CString
  import opened AsyncRing

  datatype Finish = RUNNING | CLOSE | EXIT

  datatype Owner = Nobody | Worker | Client(id: nat)

  /** Where the worker is in `aio_thread`. */
  datatype WorkerPc =
    | AtLock                       // about to take the lock
    | AtTop                        // holds the lock, at the top of the loop
    | Waiting                      // in `sphore_wait`, without the lock
    | Writing(local: seq<Byte>)    // about to `io_write` its local copy, without the lock
    | WorkerFreeing                // dropped the last reference, about to free
    | Done                         // returned

  /** Where a client thread is. */
  datatype ClientPc =
    | Idle                         // in no call
    | InWrite                      // between `aio_lock` and `aio_unlock`
    | MustSignal(joins: bool)      // unlocked, about to `sphore_signal`; in `aio_wait` it joins next
    | Joining                      // in `thread_wait`
    | ClientFreeing                // in `aio_free`, dropped the last reference, about to free

  datatype State = State(
    ring: Ring,
    finish: Finish,
    refcount: nat,
    sem: nat,
    joinable: bool,                // `aio->thread` is not null
    lock: Owner,
    worker: WorkerPc,
    clients: map<nat, ClientPc>,   // everybody else is idle
    // What happened outside the structure.
    sink: seq<Byte>,               // everything given to `io_write`
    closed: nat,                   // calls of `io_close`
    freed: nat,                    // times the structure was freed
    // History.
    done: seq<seq<Byte>>,          // payload of every finished lock section of a writer, in lock order
    current: seq<Byte>,            // payload so far of the open one
    closeCalled: bool,
    freeCalled: bool)

  datatype Action =
    | WorkerLock | WorkerTop | WorkerWake | WorkerWrite | WorkerFree
    | Lock(c: nat) | Write(c: nat, p: seq<Byte>, ring: Ring) | Unlock(c: nat) | Signal(c: nat)
    | Close(c: nat) | Wait(c: nat) | Join(c: nat) | Free(c: nat) | FreeMemory(c: nat)

  function Pc(s: State, c: nat): ClientPc {
    if c in s.clients then s.clients[c] else Idle
  }

  /** `aio_new` */
  ghost predicate Init(s: State) {
    && s.ring.Valid() && s.ring.Contents() == [] && |s.ring.buffer| == ASYNC_BUFSIZE
    && s.finish == RUNNING && s.refcount == 2 && s.sem == 0 && s.joinable
    && s.lock == Nobody && s.worker == AtLock && s.clients == map[]
    && s.sink == [] && s.closed == 0 && s.freed == 0
    && s.done == [] && s.current == [] && !s.closeCalled && !s.freeCalled
  }

  /** When a thread can take a step. Beyond program order these are the rules for callers: a lock section of a writer
      begins before `aio_close` or `aio_wait` sets `finish`, the worker is joined at most once, `aio_free` comes
      once, after one of the two, when nobody else is in a call, and nothing is called after it. */
  ghost predicate Enabled(s: State, a: Action)
    requires s.ring.Valid()
  {
    match a
    case WorkerLock => s.worker == AtLock && s.lock == Nobody
    case WorkerTop => s.worker == AtTop
    case WorkerWake => s.worker == Waiting && s.sem > 0
    case WorkerWrite => s.worker.Writing?
    case WorkerFree => s.worker == WorkerFreeing
    case Lock(c) => Pc(s, c) == Idle && s.lock == Nobody && !s.freeCalled && s.finish == RUNNING
    case Write(c, p, r) =>
      Pc(s, c) == InWrite && s.ring.Length() + |p| + 1 <= MAX_SIZE && Appends(s.ring, p, r)
    case Unlock(c) => Pc(s, c) == InWrite
    case Signal(c) => Pc(s, c).MustSignal?
    case Close(c) => Pc(s, c) == Idle && s.lock == Nobody && !s.freeCalled
    case Wait(c) => Pc(s, c) == Idle && s.lock == Nobody && !s.freeCalled && s.joinable
    case Join(c) => Pc(s, c) == Joining && s.worker == Done
    case Free(c) =>
      && s.lock == Nobody && !s.freeCalled && s.finish != RUNNING
      && forall d :: Pc(s, d) == Idle
    case FreeMemory(c) => Pc(s, c) == ClientFreeing
  }

  /** The critical section at the top of the worker's loop, up to the unlock. */
  function DoWorkerTop(s: State): State
    requires s.ring.Valid() && s.refcount > 0
  {
    if s.ring.Contents() == [] then
      if s.finish != RUNNING then
        s.(closed := if s.finish == CLOSE then s.closed + 1 else s.closed,
           refcount := s.refcount - 1,
           lock := Nobody,
           worker := if s.refcount == 1 then WorkerFreeing else Done)
      else
        s.(lock := Nobody, worker := Waiting)
    else
      var (ring, local) := Drain(s.ring);
      s.(ring := ring, lock := Nobody, worker := Writing(local))
  }

  function SetPc(s: State, c: nat, pc: ClientPc): State {
    s.(clients := s.clients[c := pc])
  }

  ghost function Do(s: State, a: Action): State
    requires s.ring.Valid() && RefsCounted(s) && Enabled(s, a)
  {
    match a
    case WorkerLock => s.(lock := Worker, worker := AtTop)
    case WorkerTop => DoWorkerTop(s)
    case WorkerWake => s.(sem := s.sem - 1, worker := AtLock)
    case WorkerWrite => s.(sink := s.sink + s.worker.local, worker := AtLock)
    case WorkerFree => s.(freed := s.freed + 1, worker := Done)
    case Lock(c) => SetPc(s, c, InWrite).(lock := Client(c))
    case Write(c, p, r) => s.(ring := r, current := s.current + p)
    case Unlock(c) => SetPc(s, c, MustSignal(false)).(lock := Nobody, done := s.done + [s.current], current := [])
    case Signal(c) => SetPc(s, c, if Pc(s, c).joins then Joining else Idle).(sem := s.sem + 1)
    case Close(c) => SetPc(s, c, MustSignal(false)).(finish := CLOSE, closeCalled := true)
    case Wait(c) =>
      SetPc(s, c, MustSignal(true)).(joinable := false, finish := if s.finish == RUNNING then EXIT else s.finish)
    case Join(c) => SetPc(s, c, Idle)
    case Free(c) =>
      SetPc(s, c, if s.refcount == 1 then ClientFreeing else Idle)
        .(joinable := false, refcount := s.refcount - 1, freeCalled := true)
    case FreeMemory(c) => SetPc(s, c, Idle).(freed := s.freed + 1)
  }

  // The invariant.

  function Local(s: State): seq<Byte> {
    if s.worker.Writing? then s.worker.local else []
  }

  function Flatten(ps: seq<seq<Byte>>): seq<Byte> {
    if ps == [] then [] else Flatten(ps[..|ps| - 1]) + ps[|ps| - 1]
  }

  /** Nothing is lost, doubled or reordered: what was written, what the worker carries and what is queued are
      together the payloads in lock order. */
  ghost predicate Conserved(s: State)
    requires s.ring.Valid()
  {
    s.sink + Local(s) + s.ring.Contents() == Flatten(s.done) + s.current
  }

  /** Somebody will still raise the semaphore. */
  ghost predicate SignalOwed(s: State) {
    exists c :: Pc(s, c) == InWrite || Pc(s, c).MustSignal?
  }

  /** The worker never sleeps on work: not with a full queue, not when it should exit. */
  ghost predicate NoLostWakeup(s: State)
    requires s.ring.Valid()
  {
    s.worker == Waiting && (s.ring.Contents() != [] || s.finish != RUNNING) ==> s.sem > 0 || SignalOwed(s)
  }

  ghost predicate LockIsHeld(s: State) {
    && (s.lock == Worker <==> s.worker == AtTop)
    && (forall c :: s.lock == Client(c) <==> Pc(s, c) == InWrite)
    && (s.lock.Client? ==> s.finish == RUNNING && !s.freeCalled)
    && (!s.lock.Client? ==> s.current == [])
  }

  predicate WorkerLeft(s: State) {
    s.worker == WorkerFreeing || s.worker == Done
  }

  ghost predicate ExitIsClean(s: State)
    requires s.ring.Valid()
  {
    && (WorkerLeft(s) ==> s.ring.Contents() == [] && s.finish != RUNNING)
    && s.closed <= 1
    && (s.closed == 1 ==> WorkerLeft(s) && s.closeCalled)
    && (s.finish == CLOSE <==> s.closeCalled)
    && (s.freeCalled ==> s.finish != RUNNING)
  }

  /** Who waits for the worker's exit, or will, has told it to leave. */
  ghost predicate JoinsAreTold(s: State) {
    forall c :: Pc(s, c) == Joining || Pc(s, c) == MustSignal(true) ==> s.finish != RUNNING
  }

  /** One reference for the worker, one for the clients. */
  ghost predicate RefsCounted(s: State) {
    s.refcount == (if WorkerLeft(s) then 0 else 1) + (if s.freeCalled then 0 else 1)
  }

  /** Whoever drops the last reference frees, nobody else. */
  ghost predicate FreedOnce(s: State) {
    && (s.freeCalled ==> forall c :: Pc(s, c) == Idle || Pc(s, c) == ClientFreeing)
    && (forall c :: Pc(s, c) == ClientFreeing ==> s.freeCalled && s.worker == Done && s.freed == 0)
    && (forall c, d :: Pc(s, c) == ClientFreeing && Pc(s, d) == ClientFreeing ==> c == d)
    && (s.worker == WorkerFreeing ==> s.freeCalled && s.freed == 0)
    && (s.refcount > 0 ==> s.freed == 0)
    && s.freed <= 1
    && (s.refcount == 0 && s.freed == 0 ==> s.worker == WorkerFreeing || exists c :: Pc(s, c) == ClientFreeing)
  }

  ghost predicate Inv(s: State) {
    && s.ring.Valid()
    && Conserved(s)
    && NoLostWakeup(s)
    && LockIsHeld(s)
    && ExitIsClean(s)
    && JoinsAreTold(s)
    && RefsCounted(s)
    && FreedOnce(s)
  }

  // Every step keeps the invariant.

  lemma InitKeeps(s: State)
    requires Init(s)
    ensures Inv(s)
  {
    hide IsSize;
  }

  lemma FlattenSnoc(ps: seq<seq<Byte>>, p: seq<Byte>)
    ensures Flatten(ps + [p]) == Flatten(ps) + p
  {
    assert (ps + [p])[..|ps|] == ps;
  }

  lemma TakenFromQueue(sink: seq<Byte>, local: seq<Byte>, rest: seq<Byte>)
    ensures sink + local + rest == sink + [] + (local + rest)
  {
  }

  lemma TopConserves(s: State)
    requires Inv(s) && s.worker == AtTop
    ensures DoWorkerTop(s).ring.Valid() && Conserved(DoWorkerTop(s))
  {
    hide Ring.Valid, Ring.Contents, Ring.Length, Drain, Flatten, NoLostWakeup, FreedOnce, LockIsHeld, ExitIsClean;
    if s.ring.Contents() != [] {
      DrainSplitsQueue(s.ring);
      TakenFromQueue(s.sink, Drain(s.ring).1, Drain(s.ring).0.Contents());
    }
  }

  lemma WorkerConserves(s: State, a: Action)
    requires Inv(s) && Enabled(s, a) && ByWorker(a)
    ensures Do(s, a).ring.Valid() && Conserved(Do(s, a))
  {
    if a.WorkerTop? {
      TopConserves(s);
    } else {
      hide Ring.Valid, Ring.Contents, Flatten, NoLostWakeup, FreedOnce, LockIsHeld, ExitIsClean;
      assert s.sink + Local(s) + [] == s.sink + Local(s) && s.sink + [] == s.sink;
    }
  }

  lemma WriteConserves(s: State, c: nat, p: seq<Byte>, r: Ring)
    requires Inv(s) && Enabled(s, Write(c, p, r))
    ensures Do(s, Write(c, p, r)).ring.Valid() && Conserved(Do(s, Write(c, p, r)))
  {
    hide Ring.Valid, Ring.Contents, Ring.Length, Appends, Flatten, NoLostWakeup, FreedOnce, LockIsHeld, ExitIsClean;
    AppendsToQueue(s.ring, p, r);
    var before := s.sink + Local(s);
    assert before + (s.ring.Contents() + p) == (before + s.ring.Contents()) + p;
    assert Flatten(s.done) + (s.current + p) == (Flatten(s.done) + s.current) + p;
  }

  lemma StepConserves(s: State, a: Action)
    requires Inv(s) && Enabled(s, a)
    ensures Do(s, a).ring.Valid() && Conserved(Do(s, a))
  {
    if ByWorker(a) {
      WorkerConserves(s, a);
    } else if a.Write? {
      WriteConserves(s, a.c, a.p, a.ring);
    } else {
      hide Ring.Valid, Ring.Contents, Flatten, NoLostWakeup, FreedOnce, LockIsHeld, ExitIsClean, Appends;
      FlattenSnoc(s.done, s.current);
      assert Flatten(s.done) + s.current + [] == Flatten(s.done) + s.current;
    }
  }

  /** Whoever owes the semaphore a signal before a step owes it afterwards, or has paid. */
  lemma SignalStaysOwed(s: State, a: Action, c: nat)
    requires Inv(s) && Enabled(s, a)
    requires Pc(s, c) == InWrite || Pc(s, c).MustSignal?
    ensures (a.Signal? && Do(s, a).sem > 0) || SignalOwed(Do(s, a))
  {
    hide Ring.Valid, Ring.Contents, Ring.Length, Appends, Drain, Conserved, JoinsAreTold, RefsCounted, FreedOnce,
      NoLostWakeup;
    assert a == Signal(c) || Pc(Do(s, a), c) == InWrite || Pc(Do(s, a), c).MustSignal?;
  }

  /** The worker only goes to sleep on an empty queue that is still in use. */
  lemma SleepsOnEmpty(s: State)
    requires Inv(s) && s.worker == AtTop
    ensures DoWorkerTop(s).worker == Waiting ==>
              DoWorkerTop(s).ring == s.ring && s.ring.Contents() == [] && DoWorkerTop(s).finish == RUNNING
  {
    hide Ring.Contents, Drain, Conserved, JoinsAreTold, FreedOnce, LockIsHeld, ExitIsClean, NoLostWakeup;
  }

  lemma WorkerKeepsWakeup(s: State, a: Action)
    requires Inv(s) && Enabled(s, a) && ByWorker(a)
    requires Do(s, a).ring.Valid()
    ensures NoLostWakeup(Do(s, a))
  {
    if a.WorkerTop? {
      SleepsOnEmpty(s);
      hide DoWorkerTop, SignalOwed, Ring.Valid, Ring.Contents, Conserved, JoinsAreTold, FreedOnce, LockIsHeld,
        ExitIsClean;
    } else {
      hide Ring.Valid, Ring.Contents, SignalOwed, Conserved, JoinsAreTold, RefsCounted, FreedOnce, LockIsHeld,
        ExitIsClean, Pc;
      assert Do(s, a).worker != Waiting;
    }
  }

  lemma ClientLeavesWorker(s: State, a: Action)
    requires s.ring.Valid() && RefsCounted(s) && Enabled(s, a) && !ByWorker(a)
    ensures Do(s, a).worker == s.worker && Do(s, a).sem >= s.sem
    ensures a.Write? || Do(s, a).ring == s.ring
    ensures a.Close? || a.Wait? || Do(s, a).finish == s.finish
  {
    hide Ring.Valid, Appends, Pc, RefsCounted;
  }

  /** While the worker waits, every step of a client that gives it work leaves a signal owed. */
  lemma ClientKeepsWakeup(s: State, a: Action)
    requires Inv(s) && Enabled(s, a) && !ByWorker(a)
    requires Do(s, a).ring.Valid()
    ensures NoLostWakeup(Do(s, a))
  {
    ClientLeavesWorker(s, a);
    if s.worker == Waiting {
      if a.Write? || a.Close? || a.Wait? {
        OwesNow(s, a);
      } else if SignalOwed(s) {
        var c := Signaller(s);
        SignalStaysOwed(s, a, c);
      }
    }
    hide Do, Enabled, Ring.Valid, Ring.Contents, Conserved, JoinsAreTold, RefsCounted, FreedOnce, SignalOwed,
      LockIsHeld, ExitIsClean;
  }

  lemma StepKeepsWakeup(s: State, a: Action)
    requires Inv(s) && Enabled(s, a)
    requires Do(s, a).ring.Valid()
    ensures NoLostWakeup(Do(s, a))
  {
    hide Do, Enabled, NoLostWakeup;
    if ByWorker(a) {
      WorkerKeepsWakeup(s, a);
    } else {
      ClientKeepsWakeup(s, a);
    }
  }

  lemma Signaller(s: State) returns (c: nat)
    requires SignalOwed(s)
    ensures Pc(s, c) == InWrite || Pc(s, c).MustSignal?
  {
    c :| Pc(s, c) == InWrite || Pc(s, c).MustSignal?;
  }

  lemma OwesNow(s: State, a: Action)
    requires s.ring.Valid() && RefsCounted(s) && Enabled(s, a)
    requires a.Write? || a.Close? || a.Wait?
    ensures SignalOwed(Do(s, a))
  {
    hide Ring.Valid, Appends;
    assert Pc(Do(s, a), a.c) == InWrite || Pc(Do(s, a), a.c).MustSignal?;
  }

  lemma WorkerKeepsLock(s: State, a: Action)
    requires Inv(s) && Enabled(s, a) && ByWorker(a)
    ensures LockIsHeld(Do(s, a))
  {
    hide Ring.Valid, Ring.Contents, Ring.Length, Appends, Drain, Conserved, JoinsAreTold, RefsCounted, FreedOnce,
      NoLostWakeup, ExitIsClean;
    assert forall d :: Pc(Do(s, a), d) == Pc(s, d);
    hide Pc;
  }

  lemma ClientKeepsLock(s: State, a: Action)
    requires Inv(s) && Enabled(s, a) && !ByWorker(a)
    ensures LockIsHeld(Do(s, a))
  {
    hide Ring.Valid, Ring.Contents, Ring.Length, Appends, DoWorkerTop, Conserved, JoinsAreTold, RefsCounted, FreedOnce,
      NoLostWakeup;
  }

  lemma StepKeepsLock(s: State, a: Action)
    requires Inv(s) && Enabled(s, a)
    ensures LockIsHeld(Do(s, a))
  {
    hide Do, Enabled, Inv, LockIsHeld;
    if ByWorker(a) {
      WorkerKeepsLock(s, a);
    } else {
      ClientKeepsLock(s, a);
    }
  }

  lemma StepKeepsJoins(s: State, a: Action)
    requires Inv(s) && Enabled(s, a)
    ensures JoinsAreTold(Do(s, a))
  {
    if ByWorker(a) {
      WorkerLeavesClients(s, a);
      assert forall d :: Pc(Do(s, a), d) == Pc(s, d);
      hide Do, Enabled, Ring.Valid, Conserved, NoLostWakeup, LockIsHeld, ExitIsClean, RefsCounted, FreedOnce;
    } else {
      ClientKeepsJoins(s, a);
    }
  }

  lemma ClientKeepsJoins(s: State, a: Action)
    requires Inv(s) && Enabled(s, a) && !ByWorker(a)
    ensures JoinsAreTold(Do(s, a))
  {
    hide Ring.Valid, Ring.Length, Appends, DoWorkerTop, Conserved, LockIsHeld, ExitIsClean, FreedOnce, NoLostWakeup;
    assert s.finish != RUNNING ==> Do(s, a).finish != RUNNING;
    forall d | Pc(Do(s, a), d) == Joining || Pc(Do(s, a), d) == MustSignal(true)
      ensures Do(s, a).finish != RUNNING
    {
      assert Pc(s, d) == Joining || Pc(s, d) == MustSignal(true) || a == Wait(d);
    }
  }

  lemma WorkerKeepsExit(s: State, a: Action)
    requires Inv(s) && Enabled(s, a) && ByWorker(a)
    requires Do(s, a).ring.Valid()
    ensures ExitIsClean(Do(s, a)) && RefsCounted(Do(s, a))
  {
    hide Ring.Valid, Ring.Contents, Ring.Length, Appends, Drain, Conserved, JoinsAreTold, FreedOnce, NoLostWakeup, Pc;
  }

  lemma ClientKeepsExit(s: State, a: Action)
    requires Inv(s) && Enabled(s, a) && !ByWorker(a)
    requires Do(s, a).ring.Valid()
    ensures ExitIsClean(Do(s, a)) && RefsCounted(Do(s, a))
  {
    hide Ring.Valid, Ring.Contents, Ring.Length, Appends, DoWorkerTop, Conserved, JoinsAreTold, NoLostWakeup;
  }

  lemma StepKeepsExit(s: State, a: Action)
    requires Inv(s) && Enabled(s, a)
    requires Do(s, a).ring.Valid()
    ensures ExitIsClean(Do(s, a)) && RefsCounted(Do(s, a))
  {
    hide Do, Enabled, Inv, ExitIsClean, RefsCounted;
    if ByWorker(a) {
      WorkerKeepsExit(s, a);
    } else {
      ClientKeepsExit(s, a);
    }
  }

  predicate ByWorker(a: Action) {
    a.WorkerLock? || a.WorkerTop? || a.WorkerWake? || a.WorkerWrite? || a.WorkerFree?
  }

  lemma WorkerKeepsFreed(s: State, a: Action)
    requires Inv(s) && Enabled(s, a) && ByWorker(a)
    ensures FreedOnce(Do(s, a))
  {
    hide Ring.Valid, Ring.Contents, Ring.Length, Appends, Drain, Conserved, JoinsAreTold, NoLostWakeup;
    assert forall d :: Pc(Do(s, a), d) == Pc(s, d);
  }

  lemma FreeKeepsFreed(s: State, a: Action)
    requires Inv(s) && Enabled(s, a) && (a.Free? || a.FreeMemory?)
    ensures FreedOnce(Do(s, a))
  {
    hide Ring.Valid, Ring.Contents, Ring.Length, Appends, Drain, Conserved, JoinsAreTold, NoLostWakeup;
    var pc := if a.Free? && s.refcount == 1 then ClientFreeing else Idle;
    assert Pc(Do(s, a), a.c) == pc;
    assert forall d :: Pc(Do(s, a), d) == if d == a.c then pc else Pc(s, d);
  }

  lemma CallKeepsFreed(s: State, a: Action)
    requires Inv(s) && Enabled(s, a) && !ByWorker(a) && !a.Free? && !a.FreeMemory?
    ensures FreedOnce(Do(s, a))
  {
    hide Ring.Valid, Ring.Contents, Ring.Length, Appends, Drain, Conserved, JoinsAreTold, NoLostWakeup;
    var pc := Pc(Do(s, a), a.c);
    assert pc != ClientFreeing && Pc(s, a.c) != ClientFreeing;
    assert !s.freeCalled;
    assert forall d :: Pc(Do(s, a), d) == if d == a.c then pc else Pc(s, d);
  }

  lemma StepKeeps(s: State, a: Action)
    requires Inv(s) && Enabled(s, a)
    ensures Inv(Do(s, a))
  {
    hide Enabled, Do, Ring.Valid, Conserved, JoinsAreTold, NoLostWakeup, LockIsHeld, ExitIsClean, RefsCounted,
      FreedOnce;
    StepConserves(s, a);
    StepKeepsJoins(s, a);
    StepKeepsWakeup(s, a);
    StepKeepsLock(s, a);
    StepKeepsExit(s, a);
    if ByWorker(a) {
      WorkerKeepsFreed(s, a);
    } else if a.Free? || a.FreeMemory? {
      FreeKeepsFreed(s, a);
    } else {
      CallKeepsFreed(s, a);
    }
  }

  // Runs.

  ghost predicate Next(s: State, a: Action, s': State) {
    s.ring.Valid() && RefsCounted(s) && Enabled(s, a) && s' == Do(s, a)
  }

  /** From a state of the invariant, exactly the enabled steps can be taken. */
  ghost predicate IsRun(states: seq<State>, actions: seq<Action>) {
    && |states| == |actions| + 1
    && Init(states[0])
    && forall i :: 0 <= i < |actions| ==> Next(states[i], actions[i], states[i + 1])
  }

  lemma {:induction false} RunKeeps(states: seq<State>, actions: seq<Action>, i: nat)
    requires IsRun(states, actions) && i < |states|
    ensures Inv(states[i])
  {
    hide Init, Next, Inv;
    if i == 0 {
      InitKeeps(states[0]);
    } else {
      RunKeeps(states, actions, i - 1);
      assert Next(states[i - 1], actions[i - 1], states[i]);
      StepIs(states[i - 1], actions[i - 1], states[i]);
      StepKeeps(states[i - 1], actions[i - 1]);
    }
  }

  lemma StepIs(s: State, a: Action, s': State)
    requires Inv(s)
    ensures s.ring.Valid() && RefsCounted(s)
    ensures Next(s, a, s') <==> Enabled(s, a) && s' == Do(s, a)
  {
    hide Enabled, Do, Ring.Valid, Conserved, JoinsAreTold, NoLostWakeup, LockIsHeld, ExitIsClean, RefsCounted,
      FreedOnce;
  }

  /** The payloads in lock order, read off the actions. */
  function Written(actions: seq<Action>): seq<Byte> {
    if actions == [] then []
    else Written(actions[..|actions| - 1]) + Payload(actions[|actions| - 1])
  }

  function Payload(a: Action): seq<Byte> {
    if a.Write? then a.p else []
  }

  lemma StepWrites(s: State, a: Action)
    requires Inv(s) && Enabled(s, a)
    ensures var s' := Do(s, a); Flatten(s'.done) + s'.current == Flatten(s.done) + s.current + Payload(a)
  {
    hide Ring.Valid, Ring.Contents, Ring.Length, Appends, Drain, Flatten, Conserved, JoinsAreTold, NoLostWakeup,
      FreedOnce;
    match a {
      case Write(_, p, _) =>
        assert Flatten(s.done) + (s.current + p) == (Flatten(s.done) + s.current) + p;
      case Unlock(_) =>
        FlattenSnoc(s.done, s.current);
      case _ =>
    }
  }

  lemma {:induction false} HistoryIsWritten(states: seq<State>, actions: seq<Action>, i: nat)
    requires IsRun(states, actions) && i < |states|
    ensures Flatten(states[i].done) + states[i].current == Written(actions[..i])
  {
    hide Next, Inv, Flatten, Payload, Do, Enabled;
    if i == 0 {
      StartsEmpty(states[0]);
    } else {
      HistoryIsWritten(states, actions, i - 1);
      RunKeeps(states, actions, i - 1);
      assert Next(states[i - 1], actions[i - 1], states[i]);
      StepIs(states[i - 1], actions[i - 1], states[i]);
      StepWrites(states[i - 1], actions[i - 1]);
      assert actions[..i][..i - 1] == actions[..i - 1];
    }
  }

  lemma StartsEmpty(s: State)
    requires Init(s)
    ensures Flatten(s.done) + s.current == []
  {
  }

  /** In every reachable state of any number of writers and the worker: what reached `io_write`, what the worker
      carries and what is queued are the payloads in lock order. */
  lemma BytesAreConserved(states: seq<State>, actions: seq<Action>, i: nat)
    requires IsRun(states, actions) && i < |states|
    ensures states[i].ring.Valid()
    ensures states[i].sink + Local(states[i]) + states[i].ring.Contents() == Written(actions[..i])
  {
    hide Init, Next, IsRun, Written, Flatten, NoLostWakeup, LockIsHeld, ExitIsClean, RefsCounted, FreedOnce, Local,
      Ring.Valid, Ring.Contents;
    RunKeeps(states, actions, i);
    HistoryIsWritten(states, actions, i);
  }

  /** The worker does not sleep on work that nobody will wake it for. */
  lemma WorkerIsWoken(states: seq<State>, actions: seq<Action>, i: nat)
    requires IsRun(states, actions) && i < |states|
    requires var s := states[i]; s.worker == Waiting && (s.ring.readPos != s.ring.writePos || s.finish != RUNNING)
    ensures states[i].sem > 0 || SignalOwed(states[i])
  {
    hide Init, Next, IsRun, Conserved, JoinsAreTold, LockIsHeld, ExitIsClean, RefsCounted, FreedOnce, SignalOwed;
    RunKeeps(states, actions, i);
  }

  lemma StepRaisesFlags(s: State, a: Action)
    requires s.ring.Valid() && RefsCounted(s) && Enabled(s, a)
    ensures Do(s, a).closeCalled <==> s.closeCalled || a.Close?
    ensures Do(s, a).freeCalled <==> s.freeCalled || a.Free?
  {
    hide Ring.Valid, Ring.Contents, RefsCounted, Pc, Drain, Appends;
  }

  lemma {:induction false} FlagsTellHistory(states: seq<State>, actions: seq<Action>, i: nat)
    requires IsRun(states, actions) && i < |states|
    ensures states[i].closeCalled <==> exists j :: 0 <= j < i && actions[j].Close?
    ensures states[i].freeCalled <==> exists j :: 0 <= j < i && actions[j].Free?
  {
    hide Enabled, RefsCounted, Ring.Valid, Do;
    if i > 0 {
      FlagsTellHistory(states, actions, i - 1);
      NextIs(states, actions, i - 1);
      StepRaisesFlags(states[i - 1], actions[i - 1]);
    }
  }

  /** The file is closed in the step in which the worker leaves, if `aio_close` came before it. */
  lemma StepCloses(s: State, a: Action)
    requires Inv(s) && Enabled(s, a)
    ensures var s' := Do(s, a);
            if WorkerLeft(s) then WorkerLeft(s') && s'.closed == s.closed
            else s'.closed == (if WorkerLeft(s') && s.closeCalled then 1 else 0) && (WorkerLeft(s') ==> !a.Close?)
  {
    if ByWorker(a) {
      hide Ring.Valid, Ring.Contents, Ring.Length, Appends, Drain, Conserved, JoinsAreTold, FreedOnce, NoLostWakeup,
        LockIsHeld, Pc;
    } else {
      ClientLeavesWorker(s, a);
      ClientLeavesFile(s, a);
      hide Do, Enabled, Ring.Valid, Conserved, JoinsAreTold, FreedOnce, NoLostWakeup, LockIsHeld;
    }
  }

  lemma ClientLeavesFile(s: State, a: Action)
    requires s.ring.Valid() && RefsCounted(s) && Enabled(s, a) && !ByWorker(a)
    ensures Do(s, a).closed == s.closed
  {
    hide Ring.Valid, Appends, Pc, RefsCounted;
  }

  /** In every run: the file is closed exactly when the worker has left and an `aio_close` came while it had not. */
  lemma {:induction false} ClosedIff(states: seq<State>, actions: seq<Action>, k: nat)
    requires IsRun(states, actions) && k < |states|
    ensures states[k].closed == 1 <==>
              WorkerLeft(states[k]) && exists j :: 0 <= j < k && actions[j].Close? && !WorkerLeft(states[j])
    ensures forall j :: 0 <= j <= k && WorkerLeft(states[j]) ==> WorkerLeft(states[k])
  {
    hide Inv, Enabled, Do, WorkerLeft;
    if k == 0 {
      StartsOpen(states[0]);
    } else {
      var s, a := states[k - 1], actions[k - 1];
      ClosedIff(states, actions, k - 1);
      NextIs(states, actions, k - 1);
      RunKeeps(states, actions, k - 1);
      StepCloses(s, a);
      FlagsTellHistory(states, actions, k - 1);
      if WorkerLeft(states[k]) && !WorkerLeft(s) {
        assert forall j :: 0 <= j < k ==> !WorkerLeft(states[j]);
      }
    }
  }

  lemma StartsOpen(s: State)
    requires Init(s)
    ensures s.closed == 0 && !WorkerLeft(s)
  {
  }

  /** Clean shutdown, in every reachable state: when the worker has left, everything was written; the file is closed
      at most once, not before an `aio_close` and not before the last byte. */
  lemma ShutdownIsClean(states: seq<State>, actions: seq<Action>, i: nat)
    requires IsRun(states, actions) && i < |states|
    ensures WorkerLeft(states[i]) || states[i].closed > 0 ==> states[i].sink == Written(actions[..i])
    ensures states[i].closed <= 1
    ensures states[i].closed == 1 ==> exists j :: 0 <= j < i && actions[j].Close?
    ensures states[i].closed == 1 <==>
              WorkerLeft(states[i]) && exists j :: 0 <= j < i && actions[j].Close? && !WorkerLeft(states[j])
  {
    ClosedIff(states, actions, i);
    BytesAreConserved(states, actions, i);
    FlagsTellHistory(states, actions, i);
    RunKeeps(states, actions, i);
    hide Init, Next, IsRun, Conserved, JoinsAreTold, NoLostWakeup, LockIsHeld, RefsCounted, FreedOnce, Written,
      Ring.Valid, Ring.Contents;
    var s := states[i];
    assert s.sink + [] + [] == s.sink;
  }

  /** The structure is freed at most once, only after `aio_free` and by the last of the two, and is never touched
      afterwards: the run is over. */
  lemma FreedIsTheEnd(states: seq<State>, actions: seq<Action>, i: nat)
    requires IsRun(states, actions) && i < |states|
    ensures states[i].freed <= 1
    ensures states[i].freed == 1 ==> states[i].worker == Done && exists j :: 0 <= j < i && actions[j].Free?
    ensures states[i].freed == 1 ==> i == |actions|
  {
    FlagsTellHistory(states, actions, i);
    RunKeeps(states, actions, i);
    if states[i].freed == 1 {
      RefsGone(states[i]);
      if i < |actions| {
        assert Next(states[i], actions[i], states[i + 1]);
        NothingAfterFree(states[i], actions[i]);
      }
    }
  }

  lemma RefsGone(s: State)
    requires Inv(s) && s.freed > 0
    ensures s.worker == Done && s.freeCalled
  {
    hide Ring.Valid, Conserved, JoinsAreTold, NoLostWakeup, LockIsHeld;
  }

  lemma NothingAfterFree(s: State, a: Action)
    requires Inv(s) && s.freed > 0
    ensures !Enabled(s, a)
  {
    hide Ring.Valid, Ring.Contents, Ring.Length, Appends, Conserved, JoinsAreTold, NoLostWakeup;
    RefsGone(s);
    match a {
      case Write(c, _, _) => assert Pc(s, c) == Idle;
      case Unlock(c) => assert Pc(s, c) == Idle;
      case Signal(c) => assert Pc(s, c) == Idle;
      case Join(c) => assert Pc(s, c) == Idle;
      case FreeMemory(c) => assert Pc(s, c) == Idle;
      case _ =>
    }
  }

  /** It is not leaked either: when both references are gone, somebody frees, or has done so. */
  lemma FreedInTheEnd(s: State)
    requires Inv(s) && WorkerLeft(s) && s.freeCalled
    ensures s.freed == 1 || Enabled(s, WorkerFree) || exists c :: Enabled(s, FreeMemory(c))
  {
    hide Ring.Valid, Conserved, JoinsAreTold, NoLostWakeup, LockIsHeld, ExitIsClean;
    if s.freed == 0 && s.worker != WorkerFreeing {
      var c :| Pc(s, c) == ClientFreeing;
      assert Enabled(s, FreeMemory(c));
    }
  }

  /** A run that has called `aio_free` and in which nobody can step any more has freed the structure, once. */
  lemma FreedAtRest(states: seq<State>, actions: seq<Action>, i: nat)
    requires IsRun(states, actions) && i < |states| && states[i].freeCalled
    requires forall a :: states[i].ring.Valid() ==> !Enabled(states[i], a)
    ensures states[i].freed == 1
  {
    var s := states[i];
    RunKeeps(states, actions, i);
    hide IsRun, Ring.Valid, Ring.Contents, Conserved, JoinsAreTold, NoLostWakeup, LockIsHeld;
    forall c
      ensures Pc(s, c) == Idle
    {
      assert !Enabled(s, FreeMemory(c));
    }
    RestIsDone(s);
    FreedInTheEnd(s);
    assert !Enabled(s, WorkerFree);
  }

  // A writer's lock section is one piece of the output.

  /** What client `c` wrote. */
  function WrittenBy(c: nat, actions: seq<Action>): seq<Byte> {
    if actions == [] then []
    else
      var a := actions[|actions| - 1];
      WrittenBy(c, actions[..|actions| - 1]) + if a.Write? && a.c == c then a.p else []
  }

  lemma HolderKeepsLock(s: State, a: Action, c: nat)
    requires Inv(s) && Enabled(s, a) && s.lock == Client(c) && a != Unlock(c)
    ensures Do(s, a).lock == Client(c)
    ensures a.Write? ==> a.c == c
  {
    hide Ring.Valid, Ring.Contents, Ring.Length, Appends, Conserved, JoinsAreTold, NoLostWakeup, FreedOnce, ExitIsClean;
  }

  lemma {:induction false} SectionHoldsLock(states: seq<State>, actions: seq<Action>, i: nat, k: nat, c: nat)
    requires IsRun(states, actions) && i < k < |states|
    requires actions[i] == Lock(c) && forall m :: i < m < k ==> actions[m] != Unlock(c)
    ensures states[k].lock == Client(c)
  {
    hide Init, Inv, Enabled, Ring.Valid;
    RunKeeps(states, actions, k - 1);
    assert Next(states[k - 1], actions[k - 1], states[k]);
    if k > i + 1 {
      SectionHoldsLock(states, actions, i, k - 1, c);
      HolderKeepsLock(states[k - 1], actions[k - 1], c);
    }
  }

  lemma SectionSnoc(actions: seq<Action>, i: nat, k: nat, c: nat)
    requires i < k < |actions| + 1
    requires actions[k - 1].Write? ==> actions[k - 1].c == c
    ensures Written(actions[..k]) == Written(actions[..k - 1]) + Payload(actions[k - 1])
    ensures WrittenBy(c, actions[i..k]) == WrittenBy(c, actions[i..k - 1]) + Payload(actions[k - 1])
  {
    hide Payload, Written, WrittenBy;
    var a := actions[k - 1];
    assert actions[..k] == actions[..k - 1] + [a];
    assert actions[i..k] == actions[i..k - 1] + [a];
    SnocWrites(actions[..k - 1], a);
    SnocWritesBy(c, actions[i..k - 1], a);
  }

  lemma SnocWrites(actions: seq<Action>, a: Action)
    ensures Written(actions + [a]) == Written(actions) + Payload(a)
  {
    hide Payload;
    assert (actions + [a])[..|actions|] == actions;
  }

  lemma SnocWritesBy(c: nat, actions: seq<Action>, a: Action)
    requires a.Write? ==> a.c == c
    ensures WrittenBy(c, actions + [a]) == WrittenBy(c, actions) + Payload(a)
  {
    assert (actions + [a])[..|actions|] == actions;
  }

  /** From `aio_lock` to `aio_unlock` nobody else's bytes get between: the section's payload is one piece. */
  lemma {:induction false} SectionIsContiguous(states: seq<State>, actions: seq<Action>, i: nat, k: nat, c: nat)
    requires IsRun(states, actions) && i < k < |states|
    requires actions[i] == Lock(c) && forall m :: i < m < k ==> actions[m] != Unlock(c)
    ensures Written(actions[..k]) == Written(actions[..i]) + WrittenBy(c, actions[i..k])
  {
    hide Init, Next, Inv, Enabled, Do, Written, WrittenBy, Payload;
    var p := Payload(actions[k - 1]);
    if k == i + 1 {
      SectionSnoc(actions, i, k, c);
      assert WrittenBy(c, actions[i..k - 1]) == [] by {
        NobodyWrites(c, actions[i..k - 1]);
      }
    } else {
      SectionIsContiguous(states, actions, i, k - 1, c);
      SectionHoldsLock(states, actions, i, k - 1, c);
      RunKeeps(states, actions, k - 1);
      NextIs(states, actions, k - 1);
      HolderKeepsLock(states[k - 1], actions[k - 1], c);
      SectionSnoc(actions, i, k, c);
      var start, section := Written(actions[..i]), WrittenBy(c, actions[i..k - 1]);
      assert start + (section + p) == start + section + p;
    }
  }

  lemma NobodyWrites(c: nat, actions: seq<Action>)
    requires actions == []
    ensures WrittenBy(c, actions) == []
  {
  }

  lemma NextIs(states: seq<State>, actions: seq<Action>, i: nat)
    requires IsRun(states, actions) && i < |actions|
    ensures states[i].ring.Valid() && RefsCounted(states[i]) && Enabled(states[i], actions[i])
    ensures states[i + 1] == Do(states[i], actions[i])
  {
    assert Next(states[i], actions[i], states[i + 1]);
  }

  // The worker on its own always comes to rest.

  function Rank(pc: WorkerPc): nat {
    match pc
    case Writing(_) => 5
    case AtLock => 4
    case AtTop => 3
    case Waiting => 2
    case WorkerFreeing => 1
    case Done => 0
  }

  function Work(s: State): nat
    requires s.ring.Valid()
  {
    8 * s.ring.Length() + 4 * s.sem + Rank(s.worker)
  }

  /** Each step of the worker is progress. */
  lemma WorkerProgresses(s: State, a: Action)
    requires Inv(s) && Enabled(s, a) && ByWorker(a)
    ensures Do(s, a).ring.Valid() && Work(Do(s, a)) < Work(s)
  {
    hide Appends, Drain, Conserved, JoinsAreTold, NoLostWakeup, FreedOnce, IsSize, LockIsHeld, ExitIsClean;
    StepConserves(s, a);
    if a.WorkerTop? {
      DrainSplitsQueue(s.ring);
    }
  }

  /** Rest is not a deadlock: while no client is in a call, but perhaps in `thread_wait`, a worker that cannot step has
      written everything and waits for the next write, or has left after the shutdown it was told of. */
  lemma RestIsDone(s: State)
    requires Inv(s) && forall c :: Pc(s, c) == Idle || Pc(s, c) == Joining
    requires forall a :: ByWorker(a) ==> !Enabled(s, a)
    ensures s.ring.Contents() == [] && s.sink == Flatten(s.done)
    ensures if s.finish == RUNNING then s.worker == Waiting else s.worker == Done
  {
    hide Flatten, Appends, FreedOnce, JoinsAreTold, Ring.Valid, Ring.Contents;
    assert !Enabled(s, WorkerLock) && !Enabled(s, WorkerTop) && !Enabled(s, WorkerWake) && !Enabled(s, WorkerWrite) &&
      !Enabled(s, WorkerFree);
    assert forall c :: Pc(s, c) != InWrite;
    assert s.sink + [] + [] == s.sink && Flatten(s.done) + [] == Flatten(s.done);
  }

  /** `actions` lead from `s` to `s'`. */
  ghost predicate Leads(s: State, actions: seq<Action>, s': State)
    decreases |actions|
  {
    if actions == [] then s == s'
    else s.ring.Valid() && RefsCounted(s) && Enabled(s, actions[0]) && Leads(Do(s, actions[0]), actions[1..], s')
  }

  /** Whatever order the worker's steps come in, they end: no schedule keeps it busy for more than `Work(s)` steps. */
  lemma {:induction false} WorkerStops(s: State, actions: seq<Action>, s': State)
    requires Inv(s) && Leads(s, actions, s') && forall a :: a in actions ==> ByWorker(a)
    ensures Inv(s') && |actions| <= Work(s) - Work(s')
    ensures s'.done == s.done && s'.finish == s.finish && s'.clients == s.clients
    decreases |actions|
  {
    hide Inv, Enabled, RefsCounted, Ring.Valid, Ring.Length, Work;
    if actions == [] {
      InvIsValid(s);
    } else {
      StepKeeps(s, actions[0]);
      WorkerProgresses(s, actions[0]);
      WorkerLeavesClients(s, actions[0]);
      WorkerStops(Do(s, actions[0]), actions[1..], s');
    }
  }

  lemma InvIsValid(s: State)
    requires Inv(s)
    ensures s.ring.Valid()
  {
  }

  lemma WorkerLeavesClients(s: State, a: Action)
    requires Inv(s) && Enabled(s, a) && ByWorker(a)
    ensures var s' := Do(s, a); s'.done == s.done && s'.finish == s.finish && s'.clients == s.clients
  {
    hide Ring.Valid, Ring.Contents, Drain, Conserved, JoinsAreTold, NoLostWakeup, FreedOnce, LockIsHeld, ExitIsClean;
  }

  lemma {:induction false} WorkerCloses(s: State, actions: seq<Action>, s': State)
    requires Inv(s) && Leads(s, actions, s') && forall a :: a in actions ==> ByWorker(a)
    ensures if WorkerLeft(s) then WorkerLeft(s') && s'.closed == s.closed
            else s'.closed == if WorkerLeft(s') && s.closeCalled then 1 else 0
    decreases |actions|
  {
    hide Inv, Enabled, RefsCounted, Ring.Valid, Do, WorkerLeft;
    if actions == [] {
      if !WorkerLeft(s) {
        NotClosedYet(s);
      }
    } else {
      StepKeeps(s, actions[0]);
      StepCloses(s, actions[0]);
      WorkerKeepsFlag(s, actions[0]);
      WorkerCloses(Do(s, actions[0]), actions[1..], s');
    }
  }

  lemma NotClosedYet(s: State)
    requires Inv(s) && !WorkerLeft(s)
    ensures s.closed == 0
  {
    hide NoLostWakeup, FreedOnce, Conserved, JoinsAreTold, Ring.Valid, LockIsHeld;
  }

  lemma WorkerKeepsFlag(s: State, a: Action)
    requires Inv(s) && Enabled(s, a) && ByWorker(a)
    ensures Do(s, a).closeCalled == s.closeCalled
  {
    StepRaisesFlags(s, a);
  }

  /** When no client has more to do than to wait for the worker's exit, every maximal run of the worker after
      `aio_close` or `aio_wait` ends in that exit, with everything written that was ever queued, and whoever is in
      `thread_wait` can return. */
  lemma ShutdownCompletes(s: State, actions: seq<Action>, s': State)
    requires Inv(s) && s.finish != RUNNING && forall c :: Pc(s, c) == Idle || Pc(s, c) == Joining
    requires Leads(s, actions, s') && forall a :: a in actions ==> ByWorker(a)
    requires forall a :: ByWorker(a) && s'.ring.Valid() ==> !Enabled(s', a)
    ensures s'.worker == Done && s'.sink == Flatten(s.done)
    ensures !WorkerLeft(s) ==> s'.closed == if s.closeCalled then 1 else 0
    ensures s'.ring.Valid() && forall c :: Pc(s, c) == Joining ==> Enabled(s', Join(c))
  {
    WorkerStops(s, actions, s');
    WorkerCloses(s, actions, s');
    InvIsValid(s');
    assert forall c :: Pc(s', c) == Pc(s, c);
    hide Inv, Leads, Flatten;
    assert forall c :: s'.worker == Done && Pc(s', c) == Joining ==> Enabled(s', Join(c));
    hide Enabled;
    RestIsDone(s');
  }

  // So do worker and clients together, while no new call begins.

  /** What is left to do in a call that has begun; a signal costs the worker another round. */
  function ClientRank(pc: ClientPc): nat {
    match pc
    case Idle => 0
    case InWrite => 7
    case MustSignal(_) => 6
    case Joining => 1
    case ClientFreeing => 1
  }

  ghost function ClientsWork(clients: map<nat, ClientPc>): nat {
    if clients == map[] then 0
    else
      var c :| c in clients;
      ClientRank(clients[c]) + ClientsWork(clients - {c})
  }

  /** The sum does not depend on which client is counted first. */
  lemma {:induction false} ClientsWorkWithout(clients: map<nat, ClientPc>, c: nat)
    requires c in clients
    ensures ClientsWork(clients) == ClientRank(clients[c]) + ClientsWork(clients - {c})
    decreases |clients|
  {
    hide ClientRank;
    var d :| d in clients && ClientsWork(clients) == ClientRank(clients[d]) + ClientsWork(clients - {d});
    if d != c {
      ClientsWorkWithout(clients - {d}, c);
      ClientsWorkWithout(clients - {c}, d);
      assert clients - {d} - {c} == clients - {c} - {d};
    }
  }

  lemma SetPcWork(s: State, c: nat, pc: ClientPc)
    requires c in s.clients
    ensures ClientsWork(SetPc(s, c, pc).clients) + ClientRank(s.clients[c]) == ClientsWork(s.clients) + ClientRank(pc)
  {
    hide ClientRank;
    var clients := SetPc(s, c, pc).clients;
    ClientsWorkWithout(s.clients, c);
    ClientsWorkWithout(clients, c);
    assert clients - {c} == s.clients - {c};
  }

  /** The steps of the worker and those that finish a call: no new call, and no write in an open section. */
  predicate Finishes(a: Action) {
    ByWorker(a) || a.Unlock? || a.Signal? || a.Join? || a.FreeMemory?
  }

  ghost function AllWork(s: State): nat
    requires s.ring.Valid()
  {
    Work(s) + ClientsWork(s.clients)
  }

  /** Each of them is progress, and leaves what was written as it is. */
  lemma StepFinishes(s: State, a: Action)
    requires Inv(s) && Enabled(s, a) && Finishes(a)
    ensures Do(s, a).ring.Valid() && AllWork(Do(s, a)) < AllWork(s)
    ensures var s' := Do(s, a); s'.finish == s.finish && Flatten(s'.done) + s'.current == Flatten(s.done) + s.current
  {
    StepWrites(s, a);
    assert Payload(a) == [] && forall q: seq<Byte> :: q + [] == q;
    if ByWorker(a) {
      WorkerProgresses(s, a);
      WorkerLeavesClients(s, a);
    } else {
      ClientFinishes(s, a);
    }
    hide Do, Enabled, Work, ClientsWork, Flatten, Inv;
  }

  lemma ClientFinishes(s: State, a: Action)
    requires Inv(s) && Enabled(s, a) && Finishes(a) && !ByWorker(a)
    ensures Do(s, a).ring == s.ring && AllWork(Do(s, a)) < AllWork(s) && Do(s, a).finish == s.finish
  {
    hide ClientsWork, Ring.Valid, Ring.Length, Rank, Conserved, JoinsAreTold, NoLostWakeup, LockIsHeld, ExitIsClean,
      FreedOnce;
    assert a.c in s.clients;
    SetPcWork(s, a.c, Pc(Do(s, a), a.c));
    assert Do(s, a).clients == SetPc(s, a.c, Pc(Do(s, a), a.c)).clients;
  }

  /** No schedule of these steps goes on for more than `AllWork(s)` of them. */
  lemma {:induction false} CallsStop(s: State, actions: seq<Action>, s': State)
    requires Inv(s) && Leads(s, actions, s') && forall a :: a in actions ==> Finishes(a)
    ensures Inv(s') && |actions| <= AllWork(s) - AllWork(s')
    ensures s'.finish == s.finish && Flatten(s'.done) + s'.current == Flatten(s.done) + s.current
    decreases |actions|
  {
    hide Inv, Enabled, RefsCounted, Ring.Valid, AllWork, Flatten;
    if actions == [] {
      InvIsValid(s);
    } else {
      StepKeeps(s, actions[0]);
      StepFinishes(s, actions[0]);
      CallsStop(Do(s, actions[0]), actions[1..], s');
    }
  }

  /** Where they stop, nobody is in a call, `aio_wait` included, everything is written, and the worker waits, or has
      left if it was told to: there is no deadlock. */
  lemma AllRestIsDone(s: State)
    requires Inv(s) && forall a :: Finishes(a) ==> !Enabled(s, a)
    ensures forall c :: Pc(s, c) == Idle
    ensures s.ring.Contents() == [] && s.current == [] && s.sink == Flatten(s.done)
    ensures if s.finish == RUNNING then s.worker == Waiting else s.worker == Done
  {
    OnlyJoining(s);
    RestIsDone(s);
    hide Flatten, Appends, FreedOnce, Conserved, NoLostWakeup, Ring.Valid, Ring.Contents, Ring.Length;
    forall c
      ensures Pc(s, c) == Idle
    {
      assert !Enabled(s, Join(c));
    }
    assert forall c :: s.lock != Client(c);
  }

  lemma OnlyJoining(s: State)
    requires s.ring.Valid() && forall a :: Finishes(a) ==> !Enabled(s, a)
    ensures forall c :: Pc(s, c) == Idle || Pc(s, c) == Joining
  {
    hide Ring.Valid, Ring.Length, Appends;
    forall c
      ensures Pc(s, c) == Idle || Pc(s, c) == Joining
    {
      assert !Enabled(s, Unlock(c)) && !Enabled(s, Signal(c)) && !Enabled(s, FreeMemory(c));
    }
  }

  /** Whatever the schedule: every call that has begun returns, `aio_wait` with the worker gone, and all that was put
      into the queue, in open lock sections as well, is written. */
  lemma CallsComplete(s: State, actions: seq<Action>, s': State)
    requires Inv(s) && Leads(s, actions, s') && forall a :: a in actions ==> Finishes(a)
    requires forall a :: Finishes(a) && s'.ring.Valid() ==> !Enabled(s', a)
    ensures forall c :: Pc(s', c) == Idle
    ensures s'.sink == Flatten(s.done) + s.current
    ensures if s.finish == RUNNING then s'.worker == Waiting else s'.worker == Done
  {
    hide Inv, Leads, Enabled, Flatten, AllWork, Finishes;
    CallsStop(s, actions, s');
    InvIsValid(s');
    AllRestIsDone(s');
    assert Flatten(s'.done) + [] == Flatten(s'.done);
  }
}
