/** The state machine of a tee in src/game/gamecore.cpp: its jumps and its hook. What the map, the tuning and the other
    players say during a step is an input of the step. */
module CharacterCore {
  import Collision

  const MAX_CLIENTS: nat := 128
  const SERVER_TICK_SPEED: nat := 50

  const HOOK_RETRACTED: int := -1
  const HOOK_IDLE: int := 0
  const HOOK_RETRACT_START: int := 1
  const HOOK_RETRACT_END: int := 3
  const HOOK_FLYING: int := 4
  const HOOK_GRABBED: int := 5

  const TILE_TELEINHOOK: int := 15

  /** No player is hooked. */
  const NOBODY: int := -1

  /** `m_Jumped`: bit 1 while the jump key of the last jump is held, bit 2 while there is no air jump left. */
  type JumpBits = bv2

  datatype Event = GroundJump | AirJump | HookLaunch | HookAttachPlayer | HookAttachGround | HookHitNohook | HookRetract

  datatype Core = Core(
    jumped: JumpBits,
    jumpedTotal: int,
    jumps: int,
    hookState: int,
    hookTick: int,
    hookedPlayer: int,
    newHook: bool,
    events: set<Event>)

  /** What a flying or holding hook finds out about the player in a slot. */
  datatype Other = Other(
    live: bool,      // the slot is taken
    skipped: bool,   // is the tee itself, or teams, solo mode and the like keep the hook from it
    near: bool,      // the hook's path passes it closely enough
    distance: real,  // from the hook's position
    keeps: bool)     // `CanKeepHook`

  datatype Surroundings = Surroundings(
    jump: bool, hook: bool,       // the input
    grounded: bool,
    launchTick: int,              // `SERVER_TICK_SPEED * (1.25 - m_HookDuration)`
    tooLong: bool,                // the hook would get longer than `m_HookLength`
    hit: int,                     // the tile in the hook's way, 0 for none
    teleHasOut: bool,
    playerHooking: bool, hookHitDisabled: bool,
    others: seq<Other>)
  {
    predicate Valid() {
      |others| == MAX_CLIENTS && forall o :: o in others ==> o.distance >= 0.0
    }
  }

  // The parts of `Tick`, in their order.

  predicate JumpsFromGround(c: Core, s: Surroundings) {
    s.jump && c.jumped & 1 == 0 && s.grounded && (c.jumped & 2 == 0 || c.jumps != 0)
  }

  predicate JumpsInAir(c: Core, s: Surroundings) {
    s.jump && c.jumped & 1 == 0 && !JumpsFromGround(c, s) && c.jumped & 2 == 0
  }

  function HandleJump(c: Core, s: Surroundings): Core {
    if JumpsFromGround(c, s) then
      c.(events := c.events + {GroundJump}, jumped := c.jumped | (if c.jumps > 1 then 1 else 3), jumpedTotal := 0)
    else if JumpsInAir(c, s) then
      c.(events := c.events + {AirJump}, jumped := c.jumped | 3, jumpedTotal := c.jumpedTotal + 1)
    else if !s.jump then
      c.(jumped := c.jumped & !1)
    else c
  }

  predicate Launches(c: Core, s: Surroundings) {
    s.hook && c.hookState == HOOK_IDLE
  }

  function HandleHook(c: Core, s: Surroundings): Core {
    if Launches(c, s) then
      c.(hookState := HOOK_FLYING, hookedPlayer := NOBODY, hookTick := s.launchTick, events := c.events + {HookLaunch})
    else if !s.hook then
      c.(hookState := HOOK_IDLE, hookedPlayer := NOBODY)
    else c
  }

  /** On the ground the air jump comes back. */
  function Land(c: Core, grounded: bool): Core {
    if grounded then c.(jumped := c.jumped & !2, jumpedTotal := 0) else c
  }

  /** A player the flying hook can grab. */
  predicate Grabbable(o: Other) {
    o.live && !o.skipped && o.near
  }

  /** The loop over the players, from slot `i` on; `best` is the distance of the player grabbed so far. */
  function GrabFrom(hooked: int, best: real, others: seq<Other>, i: nat): int
    requires i <= |others|
    decreases |others| - i
  {
    if i == |others| then hooked
    else if Grabbable(others[i]) && (hooked == NOBODY || others[i].distance < best) then
      GrabFrom(i, others[i].distance, others, i + 1)
    else GrabFrom(hooked, best, others, i + 1)
  }

  predicate LooksForPlayers(c: Core, s: Surroundings) {
    !s.hookHitDisabled && s.playerHooking && (c.hookState == HOOK_FLYING || !c.newHook)
  }

  function GrabPlayer(c: Core, s: Surroundings): Core
    requires s.Valid()
  {
    var hooked := GrabFrom(c.hookedPlayer, 0.0, s.others, 0);
    if LooksForPlayers(c, s) && hooked != c.hookedPlayer then
      c.(events := c.events + {HookAttachPlayer}, hookState := HOOK_GRABBED, hookedPlayer := hooked)
    else c
  }

  /** What a hook in flight meets when it met no player. */
  function MeetTile(c: Core, s: Surroundings): Core {
    if c.hookState != HOOK_FLYING || s.hit == 0 then c
    else if s.hit == Collision.TILE_NOHOOK then
      c.(events := c.events + {HookHitNohook}, hookState := HOOK_RETRACT_START)
    else if s.hit != TILE_TELEINHOOK then c.(events := c.events + {HookAttachGround}, hookState := HOOK_GRABBED)
    else if s.teleHasOut then c.(events := {}, hookedPlayer := NOBODY, newHook := true)
    else c
  }

  function Fly(c: Core, s: Surroundings): Core
    requires s.Valid()
  {
    MeetTile(GrabPlayer(if s.tooLong then c.(hookState := HOOK_RETRACT_START) else c, s), s)
  }

  function MoveHook(c: Core, s: Surroundings): Core
    requires s.Valid()
  {
    if c.hookState == HOOK_IDLE then c.(hookedPlayer := NOBODY)
    else if HOOK_RETRACT_START <= c.hookState < HOOK_RETRACT_END then c.(hookState := c.hookState + 1)
    else if c.hookState == HOOK_RETRACT_END then c.(events := c.events + {HookRetract}, hookState := HOOK_RETRACTED)
    else if c.hookState == HOOK_FLYING then Fly(c, s)
    else c
  }

  function Release(c: Core): Core {
    c.(hookedPlayer := NOBODY, hookState := HOOK_RETRACTED)
  }

  /** Whether the player in a slot can still be held. */
  predicate Holds(hooked: int, s: Surroundings)
    requires s.Valid() && NOBODY < hooked < MAX_CLIENTS
  {
    s.others[hooked].live && s.others[hooked].keeps
  }

  function HoldHook(c: Core, s: Surroundings): Core
    requires s.Valid() && NOBODY <= c.hookedPlayer < MAX_CLIENTS
  {
    if c.hookState != HOOK_GRABBED then c
    else
      var d := if c.hookedPlayer != NOBODY && !Holds(c.hookedPlayer, s) then Release(c) else c;
      var e := d.(hookTick := d.hookTick + 1);
      if e.hookedPlayer != NOBODY &&
         (e.hookTick > SERVER_TICK_SPEED + SERVER_TICK_SPEED / 5 || !s.others[e.hookedPlayer].live)
      then Release(e) else e
  }

  /** The hook's part of `TickDeferred`. */
  function Deferred(c: Core): Core {
    if c.hookState != HOOK_FLYING then c.(newHook := false) else c
  }

  predicate InSlots(c: Core) {
    NOBODY <= c.hookedPlayer < MAX_CLIENTS
  }

  lemma {:induction false} GrabStaysInSlots(hooked: int, best: real, others: seq<Other>, i: nat)
    requires i <= |others| && NOBODY <= hooked < |others|
    ensures NOBODY <= GrabFrom(hooked, best, others, i) < |others|
    decreases |others| - i
  {
    if i < |others| {
      if Grabbable(others[i]) && (hooked == NOBODY || others[i].distance < best) {
        GrabStaysInSlots(i, others[i].distance, others, i + 1);
      } else {
        GrabStaysInSlots(hooked, best, others, i + 1);
      }
    }
  }

  lemma MoveHookStaysInSlots(c: Core, s: Surroundings)
    requires s.Valid() && InSlots(c)
    ensures InSlots(MoveHook(c, s))
  {
    GrabStaysInSlots(c.hookedPlayer, 0.0, s.others, 0);
  }

  function Input(c: Core, s: Surroundings, useInput: bool): Core {
    if useInput then HandleHook(HandleJump(c, s), s) else c
  }

  /** The first half of `Tick`: what the input does, and the ground. */
  function AfterInput(c: Core, s: Surroundings, useInput: bool): Core {
    Land(Input(c.(events := {}), s, useInput), s.grounded)
  }

  function Tick(c: Core, s: Surroundings, useInput: bool, deferred: bool): Core
    requires s.Valid() && InSlots(c)
  {
    var d := AfterInput(c, s, useInput);
    MoveHookStaysInSlots(d, s);
    var e := HoldHook(MoveHook(d, s), s);
    if deferred then Deferred(e) else e
  }

  /** The landing in `Move`. */
  function Move(c: Core, grounded: bool): Core {
    Land(c, grounded)
  }

  /** `Reset` */
  function Reset(): Core {
    Core(0, 0, 2, HOOK_IDLE, 0, NOBODY, false, {})
  }

  // Which player is grabbed.

  /** `p` is the first of the nearest among the players below slot `end` that can be grabbed. */
  ghost predicate IsNearest(p: int, others: seq<Other>, end: nat)
    requires end <= |others|
  {
    if p == NOBODY then forall i :: 0 <= i < end ==> !Grabbable(others[i])
    else
      && 0 <= p < end && Grabbable(others[p])
      && forall i :: 0 <= i < end && Grabbable(others[i]) ==>
           others[p].distance < others[i].distance || (others[p].distance == others[i].distance && p <= i)
  }

  lemma {:induction false} GrabIsNearest(hooked: int, best: real, others: seq<Other>, i: nat)
    requires i <= |others| && IsNearest(hooked, others, i)
    requires hooked != NOBODY ==> best == others[hooked].distance
    ensures IsNearest(GrabFrom(hooked, best, others, i), others, |others|)
    decreases |others| - i
  {
    if i < |others| {
      if Grabbable(others[i]) && (hooked == NOBODY || others[i].distance < best) {
        GrabIsNearest(i, others[i].distance, others, i + 1);
      } else {
        GrabIsNearest(hooked, best, others, i + 1);
      }
    }
  }

  /** A hook in flight grabs the nearest player it can, whenever there is one and it may look for players. */
  lemma FlyGrabsNearest(c: Core, s: Surroundings)
    requires s.Valid() && c.hookState == HOOK_FLYING && c.hookedPlayer == NOBODY
    ensures var looks := !s.hookHitDisabled && s.playerHooking && (!s.tooLong || !c.newHook);
            var hooked := Fly(c, s).hookedPlayer;
            && (if looks then IsNearest(hooked, s.others, MAX_CLIENTS) else hooked == NOBODY)
            && (hooked != NOBODY ==> Fly(c, s).hookState == HOOK_GRABBED)
  {
    GrabIsNearest(NOBODY, 0.0, s.others, 0);
  }

  // The hook.

  /** A player is only held by a hook that has grabbed. */
  predicate HookIsSound(c: Core) {
    InSlots(c) && (c.hookedPlayer != NOBODY ==> c.hookState == HOOK_GRABBED)
  }

  /** Jumping and landing leave the hook alone. */
  lemma JumpsLeaveHook(c: Core, s: Surroundings, d: Core)
    requires d == HandleJump(c, s) || d == Land(c, s.grounded)
    ensures d.hookState == c.hookState && d.hookTick == c.hookTick && d.hookedPlayer == c.hookedPlayer
    ensures d.newHook == c.newHook
  {
  }

  lemma InputKeepsHookSound(c: Core, s: Surroundings, useInput: bool)
    requires HookIsSound(c)
    ensures var d := AfterInput(c, s, useInput);
            && HookIsSound(d)
            && (d.hookedPlayer != NOBODY ==> d.hookedPlayer == c.hookedPlayer && d.hookTick == c.hookTick)
  {
    var b := c.(events := {});
    var d := HandleJump(b, s);
    JumpsLeaveHook(b, s, d);
    var e := Input(b, s, useInput);
    JumpsLeaveHook(e, s, Land(e, s.grounded));
    hide HandleJump, Land;
  }

  lemma MoveHookKeepsHookSound(c: Core, s: Surroundings)
    requires s.Valid() && HookIsSound(c)
    ensures HookIsSound(MoveHook(c, s))
    ensures c.hookedPlayer != NOBODY ==> MoveHook(c, s) == c
  {
    MoveHookStaysInSlots(c, s);
    hide GrabFrom;
  }

  lemma HoldHookKeepsHookSound(c: Core, s: Surroundings)
    requires s.Valid() && HookIsSound(c)
    ensures var d := HoldHook(c, s);
            && HookIsSound(d)
            && (d.hookedPlayer != NOBODY ==>
                  d.hookedPlayer == c.hookedPlayer && d.hookTick == c.hookTick + 1 && d.hookTick <= MAX_HOOK_TICK)
  {
  }

  lemma TickKeepsHookSound(c: Core, s: Surroundings, useInput: bool, deferred: bool)
    requires s.Valid() && HookIsSound(c)
    ensures HookIsSound(Tick(c, s, useInput, deferred))
  {
    InputKeepsHookSound(c, s, useInput);
    var d := AfterInput(c, s, useInput);
    MoveHookKeepsHookSound(d, s);
    HoldHookKeepsHookSound(MoveHook(d, s), s);
    hide MoveHook, HoldHook, Land, Input;
  }

  const MAX_HOOK_TICK: nat := SERVER_TICK_SPEED + SERVER_TICK_SPEED / 5

  /** Each tick of holding a player uses up hook time. */
  lemma HoldingUsesTime(c: Core, s: Surroundings, useInput: bool, deferred: bool)
    requires s.Valid() && HookIsSound(c) && c.hookedPlayer != NOBODY
    requires Tick(c, s, useInput, deferred).hookedPlayer != NOBODY
    ensures var d := Tick(c, s, useInput, deferred);
            d.hookedPlayer == c.hookedPlayer && d.hookTick == c.hookTick + 1 && d.hookTick <= MAX_HOOK_TICK
  {
    InputKeepsHookSound(c, s, useInput);
    var d := AfterInput(c, s, useInput);
    MoveHookKeepsHookSound(d, s);
    HoldHookKeepsHookSound(MoveHook(d, s), s);
    hide MoveHook, HoldHook, Land, Input;
  }

  lemma ReleasedForGood(c: Core, s: Surroundings, useInput: bool)
    requires s.Valid() && HookIsSound(c) && useInput && !s.hook
    ensures AfterInput(c, s, useInput).hookState == HOOK_IDLE && AfterInput(c, s, useInput).hookedPlayer == NOBODY
  {
    var b := c.(events := {});
    JumpsLeaveHook(b, s, HandleJump(b, s));
    var e := Input(b, s, useInput);
    JumpsLeaveHook(e, s, Land(e, s.grounded));
    hide HandleJump, Land;
  }

  lemma HeldThroughInput(c: Core, s: Surroundings, useInput: bool)
    requires HookIsSound(c) && c.hookedPlayer != NOBODY && (useInput ==> s.hook)
    ensures var d := AfterInput(c, s, useInput);
            d.hookState == c.hookState && d.hookTick == c.hookTick && d.hookedPlayer == c.hookedPlayer
  {
    var b := c.(events := {});
    JumpsLeaveHook(b, s, HandleJump(b, s));
    var e := Input(b, s, useInput);
    JumpsLeaveHook(e, s, Land(e, s.grounded));
    hide HandleJump, Land;
  }

  /** A held player stays held exactly while the key is down, the player is there and may be held, and there is hook
      time left. */
  lemma StaysHeldIff(c: Core, s: Surroundings, useInput: bool, deferred: bool)
    requires s.Valid() && HookIsSound(c) && c.hookedPlayer != NOBODY
    ensures Tick(c, s, useInput, deferred).hookedPlayer != NOBODY <==>
              (useInput ==> s.hook) && Holds(c.hookedPlayer, s) && c.hookTick < MAX_HOOK_TICK
  {
    var d := AfterInput(c, s, useInput);
    InputKeepsHookSound(c, s, useInput);
    MoveHookKeepsHookSound(d, s);
    if useInput && !s.hook {
      ReleasedForGood(c, s, useInput);
    } else {
      HeldThroughInput(c, s, useInput);
    }
    hide AfterInput, GrabFrom, Fly;
  }

  // Runs of ticks and moves.

  datatype Step = TickStep(s: Surroundings, useInput: bool, deferred: bool) | MoveStep(grounded: bool)

  predicate Next(c: Core, step: Step, d: Core) {
    match step
    case TickStep(s, useInput, deferred) => s.Valid() && InSlots(c) && d == Tick(c, s, useInput, deferred)
    case MoveStep(grounded) => d == Move(c, grounded)
  }

  ghost predicate IsRun(states: seq<Core>, steps: seq<Step>) {
    |states| == |steps| + 1 && forall i :: 0 <= i < |steps| ==> Next(states[i], steps[i], states[i + 1])
  }

  lemma {:induction false} RunKeepsHookSound(states: seq<Core>, steps: seq<Step>, i: nat)
    requires IsRun(states, steps) && HookIsSound(states[0]) && i < |states|
    ensures HookIsSound(states[i])
  {
    hide Tick, HookIsSound;
    if i > 0 {
      RunKeepsHookSound(states, steps, i - 1);
      assert Next(states[i - 1], steps[i - 1], states[i]);
      StepKeepsHookSound(states[i - 1], steps[i - 1], states[i]);
    }
  }

  lemma StepKeepsHookSound(c: Core, step: Step, d: Core)
    requires Next(c, step, d) && HookIsSound(c)
    ensures HookIsSound(d)
  {
    hide Tick;
    if step.TickStep? {
      TickKeepsHookSound(c, step.s, step.useInput, step.deferred);
    }
  }

  /** How many of the steps are ticks. */
  function Ticks(steps: seq<Step>): nat {
    if steps == [] then 0 else Ticks(steps[..|steps| - 1]) + if steps[|steps| - 1].TickStep? then 1 else 0
  }

  /** While a player is held it is one player, and not for longer than the hook time that is left. */
  lemma {:induction false} HoldIsBounded(states: seq<Core>, steps: seq<Step>, i: nat, k: nat)
    requires IsRun(states, steps) && HookIsSound(states[0]) && i <= k < |states|
    requires forall j :: i <= j <= k ==> states[j].hookedPlayer != NOBODY
    ensures states[k].hookedPlayer == states[i].hookedPlayer
    ensures states[k].hookTick == states[i].hookTick + Ticks(steps[i..k])
    ensures Ticks(steps[i..k]) > 0 ==> Ticks(steps[i..k]) <= MAX_HOOK_TICK - states[i].hookTick
  {
    hide Tick, HookIsSound, Land, Holds;
    if i == k {
      assert steps[i..k] == [];
    } else {
      var c, step, d := states[k - 1], steps[k - 1], states[k];
      HoldIsBounded(states, steps, i, k - 1);
      RunKeepsHookSound(states, steps, k - 1);
      assert Next(c, step, d);
      assert steps[i..k][..k - 1 - i] == steps[i..k - 1];
      if step.TickStep? {
        HoldingUsesTime(c, step.s, step.useInput, step.deferred);
      } else {
        MoveLeavesHook(c, step.grounded);
      }
    }
  }

  lemma MoveLeavesHook(c: Core, grounded: bool)
    ensures Move(c, grounded).hookTick == c.hookTick && Move(c, grounded).hookedPlayer == c.hookedPlayer
    ensures Move(c, grounded).hookState == c.hookState
  {
  }

  /** The state of a retracting hook `n` ticks later. */
  function RetractedFor(hookState: int, n: nat): int {
    if HOOK_RETRACT_START <= hookState && hookState + n <= HOOK_RETRACT_END then hookState + n else HOOK_RETRACTED
  }

  predicate Retracts(hookState: int) {
    HOOK_RETRACT_START <= hookState <= HOOK_RETRACT_END || hookState == HOOK_RETRACTED
  }

  lemma TickRetracts(c: Core, s: Surroundings, useInput: bool, deferred: bool)
    requires s.Valid() && InSlots(c) && Retracts(c.hookState) && (useInput ==> s.hook)
    ensures Tick(c, s, useInput, deferred).hookState == RetractedFor(c.hookState, 1)
  {
    var b := c.(events := {});
    JumpsLeaveHook(b, s, HandleJump(b, s));
    var e := Input(b, s, useInput);
    JumpsLeaveHook(e, s, Land(e, s.grounded));
    hide HandleJump, Land, GrabFrom, Fly;
  }

  /** In any run, while the key is not let go: a hook that has begun to retract is retracted within three ticks, and
      stays so. */
  lemma {:induction false} RetractsInTime(states: seq<Core>, steps: seq<Step>, i: nat, k: nat)
    requires IsRun(states, steps) && i <= k < |states| && Retracts(states[i].hookState)
    requires forall j :: i <= j < k ==> !ReleasesHook(steps[j])
    ensures states[k].hookState == RetractedFor(states[i].hookState, Ticks(steps[i..k]))
    ensures Ticks(steps[i..k]) >= 3 ==> states[k].hookState == HOOK_RETRACTED
  {
    hide Tick, Land;
    if i == k {
      assert steps[i..k] == [];
    } else {
      var c, step := states[k - 1], steps[k - 1];
      RetractsInTime(states, steps, i, k - 1);
      assert Next(c, step, states[k]);
      assert steps[i..k][..k - 1 - i] == steps[i..k - 1];
      if step.TickStep? {
        TickRetracts(c, step.s, step.useInput, step.deferred);
      } else {
        MoveLeavesHook(c, step.grounded);
      }
    }
  }

  // What has to happen in between.

  predicate LaunchesIn(c: Core, step: Step) {
    step.TickStep? && step.useInput && Launches(c, step.s)
  }

  predicate ReleasesHook(step: Step) {
    step.TickStep? && step.useInput && !step.s.hook
  }

  lemma InputLeavesIdleOut(c: Core, s: Surroundings, useInput: bool)
    requires useInput ==> s.hook
    requires c.hookState != HOOK_IDLE || (useInput && Launches(c, s))
    ensures AfterInput(c, s, useInput).hookState != HOOK_IDLE
  {
    var b := c.(events := {});
    JumpsLeaveHook(b, s, HandleJump(b, s));
    var e := Input(b, s, useInput);
    JumpsLeaveHook(e, s, Land(e, s.grounded));
    hide HandleJump, Land;
  }

  lemma MoveHookLeavesIdleOut(c: Core, s: Surroundings)
    requires s.Valid() && c.hookState != HOOK_IDLE
    ensures MoveHook(c, s).hookState != HOOK_IDLE
  {
    hide GrabFrom;
  }

  lemma StepLeavesIdleOut(c: Core, step: Step, d: Core)
    requires Next(c, step, d) && !ReleasesHook(step)
    requires c.hookState != HOOK_IDLE || LaunchesIn(c, step)
    ensures d.hookState != HOOK_IDLE
  {
    if step.TickStep? {
      var e := AfterInput(c, step.s, step.useInput);
      InputLeavesIdleOut(c, step.s, step.useInput);
      MoveHookStaysInSlots(e, step.s);
      MoveHookLeavesIdleOut(e, step.s);
      hide AfterInput, MoveHook, Launches;
    } else {
      MoveLeavesHook(c, step.grounded);
    }
  }

  lemma {:induction false} NotIdleUntilReleased(states: seq<Core>, steps: seq<Step>, i: nat, k: nat)
    requires IsRun(states, steps) && i < k < |states| && LaunchesIn(states[i], steps[i])
    requires forall j :: i < j < k ==> !ReleasesHook(steps[j])
    ensures states[k].hookState != HOOK_IDLE
  {
    hide Next, Launches;
    assert Next(states[k - 1], steps[k - 1], states[k]);
    if k == i + 1 {
      LaunchIsNoRelease(states[i], steps[i]);
    } else {
      NotIdleUntilReleased(states, steps, i, k - 1);
    }
    StepLeavesIdleOut(states[k - 1], steps[k - 1], states[k]);
  }

  lemma LaunchIsNoRelease(c: Core, step: Step)
    requires LaunchesIn(c, step)
    ensures !ReleasesHook(step)
  {
  }

  /** Two launches: the hook key was up in some tick between them. */
  lemma LaunchesAreSeparated(states: seq<Core>, steps: seq<Step>, i: nat, k: nat)
    requires IsRun(states, steps) && i < k < |steps|
    requires LaunchesIn(states[i], steps[i]) && LaunchesIn(states[k], steps[k])
    ensures exists j :: i < j < k && ReleasesHook(steps[j])
  {
    hide IsRun;
    RunLength(states, steps);
    if forall j :: i < j < k ==> !ReleasesHook(steps[j]) {
      NotIdleUntilReleased(states, steps, i, k);
    }
  }

  lemma RunLength(states: seq<Core>, steps: seq<Step>)
    requires IsRun(states, steps)
    ensures |states| == |steps| + 1
  {
  }

  predicate JumpsIn(c: Core, step: Step) {
    step.TickStep? && step.useInput && (JumpsFromGround(c, step.s) || JumpsInAir(c, step.s))
  }

  predicate ReleasesJump(step: Step) {
    step.TickStep? && step.useInput && !step.s.jump
  }

  /** The hook's part of a tick leaves the jumps alone. */
  lemma HookLeavesJumps(c: Core, s: Surroundings, useInput: bool, deferred: bool)
    requires s.Valid() && InSlots(c)
    ensures var d := Tick(c, s, useInput, deferred);
            var e := Land(if useInput then HandleJump(c, s) else c, s.grounded);
            d.jumped == e.jumped && d.jumpedTotal == e.jumpedTotal && d.jumps == c.jumps
  {
    var d := AfterInput(c, s, useInput);
    InputJumps(c, s, useInput);
    MoveHookStaysInSlots(d, s);
    MoveLeavesJumps(d, s);
    hide AfterInput, MoveHook, HandleJump, Land;
  }

  lemma InputJumps(c: Core, s: Surroundings, useInput: bool)
    ensures var d := AfterInput(c, s, useInput);
            var e := Land(if useInput then HandleJump(c, s) else c, s.grounded);
            d.jumped == e.jumped && d.jumpedTotal == e.jumpedTotal && d.jumps == c.jumps
  {
  }

  lemma MoveLeavesJumps(c: Core, s: Surroundings)
    requires s.Valid()
    ensures MoveHook(c, s).jumped == c.jumped && MoveHook(c, s).jumpedTotal == c.jumpedTotal
    ensures MoveHook(c, s).jumps == c.jumps
  {
    hide GrabFrom;
  }

  lemma StepKeepsJumpHeld(c: Core, step: Step, d: Core)
    requires Next(c, step, d) && !ReleasesJump(step)
    requires c.jumped & 1 != 0 || JumpsIn(c, step)
    ensures d.jumped & 1 != 0
  {
    if step.TickStep? {
      HookLeavesJumps(c, step.s, step.useInput, step.deferred);
      hide Tick;
    }
  }

  lemma {:induction false} JumpHeldUntilReleased(states: seq<Core>, steps: seq<Step>, i: nat, k: nat)
    requires IsRun(states, steps) && i < k < |states| && JumpsIn(states[i], steps[i])
    requires forall j :: i < j < k ==> !ReleasesJump(steps[j])
    ensures states[k].jumped & 1 != 0
  {
    hide Next, JumpsFromGround, JumpsInAir;
    assert Next(states[k - 1], steps[k - 1], states[k]);
    if k == i + 1 {
      JumpIsNoRelease(states[i], steps[i]);
    } else {
      JumpHeldUntilReleased(states, steps, i, k - 1);
    }
    StepKeepsJumpHeld(states[k - 1], steps[k - 1], states[k]);
  }

  lemma JumpIsNoRelease(c: Core, step: Step)
    requires JumpsIn(c, step)
    ensures !ReleasesJump(step) && c.jumped & 1 == 0
  {
  }

  /** Two jumps: the jump key was up in some tick between them. */
  lemma JumpsAreSeparated(states: seq<Core>, steps: seq<Step>, i: nat, k: nat)
    requires IsRun(states, steps) && i < k < |steps|
    requires JumpsIn(states[i], steps[i]) && JumpsIn(states[k], steps[k])
    ensures exists j :: i < j < k && ReleasesJump(steps[j])
  {
    hide IsRun, JumpsIn;
    RunLength(states, steps);
    JumpIsNoRelease(states[k], steps[k]);
    if forall j :: i < j < k ==> !ReleasesJump(steps[j]) {
      JumpHeldUntilReleased(states, steps, i, k);
    }
  }

  predicate AirJumpsIn(c: Core, step: Step) {
    step.TickStep? && step.useInput && JumpsInAir(c, step.s)
  }

  predicate Lands(step: Step) {
    if step.TickStep? then step.s.grounded else step.grounded
  }

  lemma StepKeepsAirJumpSpent(c: Core, step: Step, d: Core)
    requires Next(c, step, d) && !Lands(step)
    requires c.jumped & 2 != 0 || AirJumpsIn(c, step)
    ensures d.jumped & 2 != 0
  {
    if step.TickStep? {
      HookLeavesJumps(c, step.s, step.useInput, step.deferred);
      hide Tick;
    }
  }

  lemma {:induction false} AirJumpSpentUntilLanding(states: seq<Core>, steps: seq<Step>, i: nat, k: nat)
    requires IsRun(states, steps) && i < k < |states| && AirJumpsIn(states[i], steps[i])
    requires forall j :: i < j < k ==> !Lands(steps[j])
    ensures states[k].jumped & 2 != 0
  {
    hide Next, JumpsFromGround, JumpsInAir;
    assert Next(states[k - 1], steps[k - 1], states[k]);
    if k == i + 1 {
      AirJumpIsInAir(states[i], steps[i]);
    } else {
      AirJumpSpentUntilLanding(states, steps, i, k - 1);
    }
    StepKeepsAirJumpSpent(states[k - 1], steps[k - 1], states[k]);
  }

  lemma AirJumpIsInAir(c: Core, step: Step)
    requires AirJumpsIn(c, step)
    ensures !Lands(step) && c.jumped & 2 == 0
  {
  }

  /** Two air jumps: the tee stood on the ground in some tick between them, or landed in a move. */
  lemma AirJumpsAreSeparated(states: seq<Core>, steps: seq<Step>, i: nat, k: nat)
    requires IsRun(states, steps) && i < k < |steps|
    requires AirJumpsIn(states[i], steps[i]) && AirJumpsIn(states[k], steps[k])
    ensures exists j :: i < j < k && Lands(steps[j])
  {
    hide IsRun, AirJumpsIn;
    RunLength(states, steps);
    AirJumpIsInAir(states[k], steps[k]);
    if forall j :: i < j < k ==> !Lands(steps[j]) {
      AirJumpSpentUntilLanding(states, steps, i, k);
    }
  }

  /** The count of air jumps is 0 or 1, and an air jump counted is an air jump spent. */
  predicate JumpsAreSound(c: Core) {
    0 <= c.jumpedTotal <= 1 && (c.jumpedTotal != 0 ==> c.jumped & 2 != 0)
  }

  lemma StepKeepsJumpsSound(c: Core, step: Step, d: Core)
    requires Next(c, step, d) && JumpsAreSound(c)
    ensures JumpsAreSound(d)
  {
    if step.TickStep? {
      HookLeavesJumps(c, step.s, step.useInput, step.deferred);
      hide Tick;
    }
  }

  lemma {:induction false} RunKeepsJumpsSound(states: seq<Core>, steps: seq<Step>, i: nat)
    requires IsRun(states, steps) && states[0] == Reset() && i < |states|
    ensures JumpsAreSound(states[i])
  {
    hide Next;
    if i > 0 {
      RunKeepsJumpsSound(states, steps, i - 1);
      assert Next(states[i - 1], steps[i - 1], states[i]);
      StepKeepsJumpsSound(states[i - 1], steps[i - 1], states[i]);
    }
  }

  // A tee with one jump.

  /** Within a tick a jump of a tee with at most one jump leaves bit 2 set exactly if it was not made from the ground:
      there the landing clears the bit again. */
  lemma SecondBitAfterJump(c: Core, s: Surroundings, deferred: bool)
    requires s.Valid() && InSlots(c) && c.jumps <= 1 && (JumpsFromGround(c, s) || JumpsInAir(c, s))
    ensures Tick(c, s, true, deferred).jumped & 2 != 0 <==> !s.grounded
  {
    HookLeavesJumps(c, s, true, deferred);
    hide Tick;
  }

  /** The server's jump rules after each tick, for a tee without unlimited jumps. */
  function JumpRules(c: Core): Core {
    if c.jumps == -1 || c.jumps == 0 then c.(jumped := c.jumped | 2)
    else if c.jumps == 1 && c.jumped > 0 then c.(jumped := c.jumped | 2)
    else if c.jumpedTotal < c.jumps - 1 && c.jumped > 1 then c.(jumped := 1)
    else c
  }

  /** To the first bit they do nothing, except that a tee which has not used up its two or more jumps is left with it
      when the second one is taken back. */
  lemma RulesAndFirstBit(c: Core)
    ensures JumpRules(c).jumped & 1 != 0 <==>
              c.jumped & 1 != 0 || (!(-1 <= c.jumps <= 1) && c.jumped & 2 != 0 && c.jumpedTotal < c.jumps - 1)
  {
  }

  /** They set the bit again: behind them it is set after every jump of a tee with one jump or none. */
  lemma RulesSetSecondBit(c: Core, s: Surroundings, deferred: bool)
    requires s.Valid() && InSlots(c) && -1 <= c.jumps <= 1 && (JumpsFromGround(c, s) || JumpsInAir(c, s))
    ensures JumpRules(Tick(c, s, true, deferred)).jumped & 2 != 0
  {
    HookLeavesJumps(c, s, true, deferred);
    hide Tick;
  }

  /** Nothing around, and nothing pressed but perhaps the jump key. */
  function Alone(jump: bool, grounded: bool): (s: Surroundings)
    ensures s.Valid()
  {
    Surroundings(jump, false, grounded, 0, false, 0, false, false, false,
                 seq(MAX_CLIENTS, _ => Other(false, false, false, 0.0, false)))
  }

  /** So a tee with one jump jumps from the ground and, two ticks later, in the air. */
  lemma OneJumpMadeTwice() returns (states: seq<Core>, steps: seq<Step>)
    ensures IsRun(states, steps) && |steps| == 3 && states[0] == Reset().(jumps := 1)
    ensures steps[0].TickStep? && JumpsFromGround(states[0], steps[0].s) && states[1].jumped & 2 == 0
    ensures AirJumpsIn(states[2], steps[2])
  {
    var c0 := Reset().(jumps := 1);
    var s0, s1, s2 := Alone(true, true), Alone(false, false), Alone(true, false);
    hide Alone, GrabFrom;
    AloneIs(true, true);
    AloneIs(false, false);
    AloneIs(true, false);
    var c1 := Tick(c0, s0, true, true);
    HookLeavesJumps(c0, s0, true, true);
    TickInSlots(c0, s0);
    var c2 := Tick(c1, s1, true, true);
    HookLeavesJumps(c1, s1, true, true);
    TickInSlots(c1, s1);
    var c3 := Tick(c2, s2, true, true);
    hide Tick;
    states := [c0, c1, c2, c3];
    steps := [TickStep(s0, true, true), TickStep(s1, true, true), TickStep(s2, true, true)];
    assert Next(c0, steps[0], c1) && Next(c1, steps[1], c2) && Next(c2, steps[2], c3);
  }

  lemma AloneIs(jump: bool, grounded: bool)
    ensures var s := Alone(jump, grounded); s.jump == jump && s.grounded == grounded && !s.hook
  {
  }

  lemma TickInSlots(c: Core, s: Surroundings)
    requires s.Valid() && HookIsSound(c)
    ensures HookIsSound(Tick(c, s, true, true))
  {
    TickKeepsHookSound(c, s, true, true);
  }

  // A tee with two jumps or more, on a server.

  /** A tick with the jump rules behind it, and the move. */
  datatype ServerTick = ServerTick(s: Surroundings, useInput: bool, deferred: bool, landed: bool)

  predicate NextOnServer(c: Core, t: ServerTick, d: Core) {
    t.s.Valid() && InSlots(c) && d == Move(JumpRules(Tick(c, t.s, t.useInput, t.deferred)), t.landed)
  }

  ghost predicate IsServerRun(states: seq<Core>, ticks: seq<ServerTick>) {
    |states| == |ticks| + 1 && forall i :: 0 <= i < |ticks| ==> NextOnServer(states[i], ticks[i], states[i + 1])
  }

  predicate Grounds(t: ServerTick) {
    t.s.grounded || t.landed
  }

  predicate JumpsInAirOn(c: Core, t: ServerTick) {
    t.useInput && JumpsInAir(c, t.s)
  }

  /** All jumps but the one from the ground can be made in the air, and bit 2 is set exactly when they are used up. */
  predicate JumpsAreCounted(c: Core) {
    c.jumps >= 2 && 0 <= c.jumpedTotal <= c.jumps - 1 && (c.jumped & 2 != 0 <==> c.jumpedTotal == c.jumps - 1)
  }

  lemma ServerTickCounts(c: Core, t: ServerTick, d: Core)
    requires NextOnServer(c, t, d) && JumpsAreCounted(c)
    ensures JumpsAreCounted(d) && d.jumps == c.jumps
    ensures d.jumpedTotal == if Grounds(t) then 0 else c.jumpedTotal + if JumpsInAirOn(c, t) then 1 else 0
  {
    HookLeavesJumps(c, t.s, t.useInput, t.deferred);
    hide Tick;
  }

  /** A tee in that state jumps in the air exactly if it is off the ground, the key was not held, and there is a jump
      left. */
  lemma JumpsInAirIff(c: Core, s: Surroundings)
    requires JumpsAreCounted(c)
    ensures JumpsInAir(c, s) <==> s.jump && !s.grounded && c.jumped & 1 == 0 && c.jumpedTotal < c.jumps - 1
  {
  }

  lemma {:induction false} ServerRunKeepsCount(states: seq<Core>, ticks: seq<ServerTick>, i: nat)
    requires IsServerRun(states, ticks) && i < |states| && states[0].jumps >= 2
    requires states[0] == Reset().(jumps := states[0].jumps)
    ensures JumpsAreCounted(states[i]) && states[i].jumps == states[0].jumps
  {
    hide NextOnServer;
    if i > 0 {
      ServerRunKeepsCount(states, ticks, i - 1);
      assert NextOnServer(states[i - 1], ticks[i - 1], states[i]);
      ServerTickCounts(states[i - 1], ticks[i - 1], states[i]);
    }
  }

  /** The air jumps in the ticks from `i` up to `k`. */
  function AirJumps(states: seq<Core>, ticks: seq<ServerTick>, i: nat, k: nat): nat
    requires i <= k <= |ticks| <= |states|
  {
    if i == k then 0 else AirJumps(states, ticks, i, k - 1) + if JumpsInAirOn(states[k - 1], ticks[k - 1]) then 1 else 0
  }

  /** In any run from `Reset`: as long as the tee does not touch the ground, each air jump is counted, and there are at
      most as many as the jumps it has less one. */
  lemma {:induction false} AirJumpsAreBounded(states: seq<Core>, ticks: seq<ServerTick>, i: nat, k: nat)
    requires IsServerRun(states, ticks) && i <= k < |states| && states[0].jumps >= 2
    requires states[0] == Reset().(jumps := states[0].jumps)
    requires forall j :: i <= j < k ==> !Grounds(ticks[j])
    ensures states[k].jumpedTotal == states[i].jumpedTotal + AirJumps(states, ticks, i, k)
    ensures AirJumps(states, ticks, i, k) <= states[0].jumps - 1 - states[i].jumpedTotal <= states[0].jumps - 1
  {
    hide NextOnServer, JumpsInAirOn;
    ServerRunKeepsCount(states, ticks, i);
    ServerRunKeepsCount(states, ticks, k);
    if i < k {
      AirJumpsAreBounded(states, ticks, i, k - 1);
      ServerRunKeepsCount(states, ticks, k - 1);
      assert NextOnServer(states[k - 1], ticks[k - 1], states[k]);
      ServerTickCounts(states[k - 1], ticks[k - 1], states[k]);
    }
  }

  predicate JumpsOnServer(c: Core, t: ServerTick) {
    t.useInput && (JumpsFromGround(c, t.s) || JumpsInAir(c, t.s))
  }

  lemma ServerTickKeepsJumpHeld(c: Core, t: ServerTick, d: Core)
    requires NextOnServer(c, t, d) && (t.useInput ==> t.s.jump)
    requires c.jumped & 1 != 0 || JumpsOnServer(c, t)
    ensures d.jumped & 1 != 0
  {
    HookLeavesJumps(c, t.s, t.useInput, t.deferred);
    hide Tick;
  }

  lemma {:induction false} JumpHeldOnServer(states: seq<Core>, ticks: seq<ServerTick>, i: nat, k: nat)
    requires IsServerRun(states, ticks) && i < k < |states| && JumpsOnServer(states[i], ticks[i])
    requires forall j :: i < j < k ==> (ticks[j].useInput ==> ticks[j].s.jump)
    ensures states[k].jumped & 1 != 0
  {
    hide NextOnServer, JumpsFromGround, JumpsInAir;
    assert NextOnServer(states[k - 1], ticks[k - 1], states[k]);
    if k == i + 1 {
      JumpIsPressed(states[i], ticks[i]);
    } else {
      JumpHeldOnServer(states, ticks, i, k - 1);
    }
    ServerTickKeepsJumpHeld(states[k - 1], ticks[k - 1], states[k]);
  }

  lemma JumpIsPressed(c: Core, t: ServerTick)
    requires JumpsOnServer(c, t)
    ensures t.s.jump && c.jumped & 1 == 0
  {
  }

  /** The jump rules do not let a held key jump twice: whatever the number of jumps, the key was up in some tick between
      two of them. */
  lemma JumpsOnServerAreSeparated(states: seq<Core>, ticks: seq<ServerTick>, i: nat, k: nat)
    requires IsServerRun(states, ticks) && i < k < |ticks|
    requires JumpsOnServer(states[i], ticks[i]) && JumpsOnServer(states[k], ticks[k])
    ensures exists j :: i < j < k && ticks[j].useInput && !ticks[j].s.jump
  {
    hide IsServerRun, JumpsOnServer;
    ServerRunLength(states, ticks);
    JumpIsPressed(states[k], ticks[k]);
    if forall j :: i < j < k ==> (ticks[j].useInput ==> ticks[j].s.jump) {
      JumpHeldOnServer(states, ticks, i, k);
    }
  }

  lemma ServerRunLength(states: seq<Core>, ticks: seq<ServerTick>)
    requires IsServerRun(states, ticks)
    ensures |states| == |ticks| + 1
  {
  }

  // What the events tell.

  /** The hook goes through a teleporter in this tick. */
  predicate Teleports(c: Core, s: Surroundings, useInput: bool)
    requires s.Valid()
  {
    var d := AfterInput(c, s, useInput);
    && d.hookState == HOOK_FLYING && !s.tooLong && s.hit == TILE_TELEINHOOK && s.teleHasOut
    && GrabPlayer(d, s) == d
  }

  /** A tick reports its jump and its launch, unless the hook goes through a teleporter: that wipes all events. */
  lemma EventsTell(c: Core, s: Surroundings, useInput: bool, deferred: bool)
    requires s.Valid() && InSlots(c)
    ensures var events := Tick(c, s, useInput, deferred).events;
            var told := useInput && !Teleports(c, s, useInput);
            && (GroundJump in events <==> told && JumpsFromGround(c, s))
            && (AirJump in events <==> told && JumpsInAir(c, s))
            && (HookLaunch in events <==> told && Launches(c, s))
  {
    var d := AfterInput(c, s, useInput);
    InputTells(c, s, useInput);
    MoveHookStaysInSlots(d, s);
    MoveHookTells(d, s);
    hide AfterInput, MoveHook, GrabPlayer, JumpsFromGround, JumpsInAir, Launches;
  }

  lemma InputTells(c: Core, s: Surroundings, useInput: bool)
    ensures var events := AfterInput(c, s, useInput).events;
            && (GroundJump in events <==> useInput && JumpsFromGround(c, s))
            && (AirJump in events <==> useInput && JumpsInAir(c, s))
            && (HookLaunch in events <==> useInput && Launches(c, s))
  {
  }

  lemma MoveHookTells(c: Core, s: Surroundings)
    requires s.Valid()
    ensures var wiped := c.hookState == HOOK_FLYING && !s.tooLong && s.hit == TILE_TELEINHOOK && s.teleHasOut &&
                         GrabPlayer(c, s) == c;
            var events := MoveHook(c, s).events;
            forall e :: e == GroundJump || e == AirJump || e == HookLaunch ==>
              (e in events <==> !wiped && e in c.events)
  {
    hide GrabFrom;
  }

  /** A tick that jumps and launches the hook, and reports neither. */
  lemma EventsAreWiped() returns (s: Surroundings)
    ensures s.Valid() && JumpsFromGround(Reset(), s) && Launches(Reset(), s) && Teleports(Reset(), s, true)
    ensures var events := Tick(Reset(), s, true, true).events; GroundJump !in events && HookLaunch !in events
  {
    s := Alone(true, true).(hook := true, hit := TILE_TELEINHOOK, teleHasOut := true);
    NobodyToGrab(s);
    EventsTell(Reset(), s, true, true);
    hide Tick, GrabFrom;
  }

  lemma NobodyToGrab(s: Surroundings)
    requires !s.playerHooking && s.Valid()
    ensures forall c :: GrabPlayer(c, s) == c
  {
    hide GrabFrom;
  }
}
