/** What one `Tick` of a tee does, in its inputs and its fields before the tick (src/game/gamecore.cpp). */
module TickCases {
  import opened CharacterCore

  // Jumps.

  /** The first bit says that the key of the last jump is still held. The second one says that there is no air jump
      left: it is set by a jump in the air, and cleared by the ground. */
  lemma TickJumps(c: Core, s: Surroundings, useInput: bool, deferred: bool)
    requires s.Valid() && InSlots(c)
    ensures var d := Tick(c, s, useInput, deferred);
            var pressed := useInput && s.jump && c.jumped & 1 == 0;
            && (d.jumped & 1 != 0 <==>
                if useInput then s.jump && (c.jumped & 1 != 0 || c.jumped & 2 == 0 || (s.grounded && c.jumps != 0))
                else c.jumped & 1 != 0)
            && (d.jumped & 2 != 0 <==> !s.grounded && (c.jumped & 2 != 0 || pressed))
            && d.jumpedTotal ==
               (if s.grounded then 0 else c.jumpedTotal + if pressed && c.jumped & 2 == 0 then 1 else 0)
  {
    HookLeavesJumps(c, s, useInput, deferred);
    hide Tick;
  }

  /** Which jump is made, and reported unless the hook goes through a teleporter. */
  lemma TickReportsJumps(c: Core, s: Surroundings, useInput: bool, deferred: bool)
    requires s.Valid() && InSlots(c) && !Teleports(c, s, useInput)
    ensures var events := Tick(c, s, useInput, deferred).events;
            var pressed := useInput && s.jump && c.jumped & 1 == 0;
            && (GroundJump in events <==> pressed && s.grounded && (c.jumped & 2 == 0 || c.jumps != 0))
            && (AirJump in events <==> pressed && !s.grounded && c.jumped & 2 == 0)
            && (HookLaunch in events <==> useInput && s.hook && c.hookState == 0)
  {
    EventsTell(c, s, useInput, deferred);
    hide Tick, Teleports;
  }

  /** A tee fresh from `Reset` has one jump from the ground and one in the air, behind the server's jump rules. */
  lemma FreshTeeJumps(s: Surroundings, deferred: bool)
    requires s.Valid() && s.jump
    ensures var d := JumpRules(Tick(Reset(), s, true, deferred));
            if s.grounded then JumpsFromGround(Reset(), s) && d.jumped & 2 == 0
            else JumpsInAir(Reset(), s) && d.jumpedTotal == 1 && d.jumped & 2 != 0
  {
    HookLeavesJumps(Reset(), s, true, deferred);
    hide Tick;
  }

  // The hook. Its states are -1 (retracted), 0 (idle), 1 to 3 (retracting), 4 (flying) and 5 (grabbed).

  /** Of the events, these are the hook's own. */
  predicate HookTells(events: set<Event>, player: bool, ground: bool, nohook: bool, retract: bool) {
    && (HookAttachPlayer in events <==> player) && (HookAttachGround in events <==> ground)
    && (HookHitNohook in events <==> nohook) && (HookRetract in events <==> retract)
  }

  lemma InputTellsNothing(c: Core, s: Surroundings, useInput: bool)
    ensures HookTells(AfterInput(c, s, useInput).events, false, false, false, false)
    ensures AfterInput(c, s, useInput).newHook == c.newHook
  {
    var b := c.(events := {});
    var e := HandleJump(b, s);
    assert e.events <= {GroundJump, AirJump} && e.newHook == c.newHook;
    hide HandleJump;
  }

  lemma InputHook(c: Core, s: Surroundings, useInput: bool)
    ensures var d := AfterInput(c, s, useInput);
            if useInput && !s.hook then
              d.hookState == 0 && d.hookedPlayer == NOBODY && d.hookTick == c.hookTick
            else if useInput && c.hookState == 0 then
              d.hookState == 4 && d.hookedPlayer == NOBODY && d.hookTick == s.launchTick
            else d.hookState == c.hookState && d.hookedPlayer == c.hookedPlayer && d.hookTick == c.hookTick
  {
    var b := c.(events := {});
    JumpsLeaveHook(b, s, HandleJump(b, s));
    var e := Input(b, s, useInput);
    JumpsLeaveHook(e, s, Land(e, s.grounded));
    hide HandleJump, Land;
  }

  /** With the key up the hook is idle. */
  lemma TickReleases(c: Core, s: Surroundings, useInput: bool, deferred: bool)
    requires s.Valid() && InSlots(c) && if useInput then !s.hook else c.hookState == 0
    ensures var d := Tick(c, s, useInput, deferred);
            && d.hookState == 0 && d.hookedPlayer == NOBODY && d.hookTick == c.hookTick
            && d.newHook == (c.newHook && !deferred) && HookTells(d.events, false, false, false, false)
  {
    InputHook(c, s, useInput);
    InputTellsNothing(c, s, useInput);
    hide AfterInput, GrabFrom;
  }

  /** A retracting hook goes on to the next state, and tells when it is retracted. */
  lemma TickGoesOnRetracting(c: Core, s: Surroundings, useInput: bool, deferred: bool)
    requires s.Valid() && InSlots(c) && c.hookState in {-1, 1, 2, 3} && (useInput ==> s.hook)
    ensures var d := Tick(c, s, useInput, deferred);
            && d.hookState == (if c.hookState == 1 then 2 else if c.hookState == 2 then 3 else -1)
            && d.hookedPlayer == c.hookedPlayer && d.hookTick == c.hookTick
            && d.newHook == (c.newHook && !deferred) && HookTells(d.events, false, false, false, c.hookState == 3)
  {
    InputHook(c, s, useInput);
    InputTellsNothing(c, s, useInput);
    hide AfterInput, GrabFrom;
  }

  /** A hook that has grabbed the ground stays. One that has grabbed a player lets go when the player is gone, may not
      be held, or was held for 60 ticks. */
  lemma TickHolds(c: Core, s: Surroundings, useInput: bool, deferred: bool)
    requires s.Valid() && InSlots(c) && c.hookState == 5 && (useInput ==> s.hook)
    ensures var d := Tick(c, s, useInput, deferred);
            var p := c.hookedPlayer;
            var lost := p != NOBODY && !(s.others[p].live && s.others[p].keeps && c.hookTick < 60);
            && d.hookState == (if lost then -1 else 5) && d.hookedPlayer == (if lost then NOBODY else p)
            && d.hookTick == c.hookTick + 1
            && d.newHook == (c.newHook && !deferred) && HookTells(d.events, false, false, false, false)
  {
    InputHook(c, s, useInput);
    InputTellsNothing(c, s, useInput);
    hide AfterInput, GrabFrom;
  }

  /** The hook was flying, or is launched now. */
  predicate InFlight(c: Core, s: Surroundings, useInput: bool) {
    || (c.hookState == 4 && c.hookedPlayer == NOBODY && (useInput ==> s.hook))
    || (c.hookState == 0 && useInput && s.hook)
  }

  function TickInFlight(c: Core, s: Surroundings): int {
    if c.hookState == 0 then s.launchTick else c.hookTick
  }

  predicate MayGrab(c: Core, s: Surroundings) {
    !s.hookHitDisabled && s.playerHooking && (!s.tooLong || !c.newHook)
  }

  predicate NobodyInReach(s: Surroundings) {
    forall o :: o in s.others ==> !(o.live && !o.skipped && o.near)
  }

  lemma FlightStarts(c: Core, s: Surroundings, useInput: bool)
    requires InFlight(c, s, useInput)
    ensures var d := AfterInput(c, s, useInput);
            && d.hookState == 4 && d.hookedPlayer == NOBODY && d.hookTick == TickInFlight(c, s)
            && d.newHook == c.newHook && HookTells(d.events, false, false, false, false)
  {
    InputHook(c, s, useInput);
    InputTellsNothing(c, s, useInput);
    hide AfterInput;
  }

  lemma {:induction false} NobodyGrabbed(others: seq<Other>, i: nat)
    requires i <= |others| && forall o :: o in others ==> !(o.live && !o.skipped && o.near)
    ensures GrabFrom(NOBODY, 0.0, others, i) == NOBODY
    decreases |others| - i
  {
    if i < |others| {
      assert others[i] in others;
      NobodyGrabbed(others, i + 1);
    }
  }

  /** A hook in flight that finds no player: it begins to retract when it gets too long or meets a tile it cannot hold
      on to, flies on when it meets nothing or a teleporter, and holds on to every other tile. */
  lemma TickFlies(c: Core, s: Surroundings, useInput: bool, deferred: bool)
    requires s.Valid() && InSlots(c) && InFlight(c, s, useInput) && (!MayGrab(c, s) || NobodyInReach(s))
    ensures var d := Tick(c, s, useInput, deferred);
            var retracts := s.tooLong || s.hit == 3;
            var flies := !s.tooLong && s.hit in {0, 15};
            && d.hookState == (if retracts then 1 else if flies then 4 else 5)
            && d.hookedPlayer == NOBODY
            && d.hookTick == TickInFlight(c, s) + (if retracts || flies then 0 else 1)
            && d.newHook == (if flies then c.newHook || (s.hit == 15 && s.teleHasOut) else c.newHook && !deferred)
            && HookTells(d.events, false, !retracts && !flies, !s.tooLong && s.hit == 3, false)
  {
    var d := AfterInput(c, s, useInput);
    FlightStarts(c, s, useInput);
    if NobodyInReach(s) {
      NobodyGrabbed(s.others, 0);
    }
    hide AfterInput, GrabFrom, NobodyInReach;
    var e := if s.tooLong then d.(hookState := 1) else d;
    assert GrabPlayer(e, s) == e;
  }

  /** And it goes through a teleporter when it meets one that leads somewhere. */
  lemma TeleportsIff(c: Core, s: Surroundings, useInput: bool)
    requires s.Valid() && HookIsSound(c)
    ensures Teleports(c, s, useInput) <==>
              InFlight(c, s, useInput) && (!MayGrab(c, s) || NobodyInReach(s)) &&
              !s.tooLong && s.hit == 15 && s.teleHasOut
  {
    var d := AfterInput(c, s, useInput);
    InputHook(c, s, useInput);
    InputTellsNothing(c, s, useInput);
    if d.hookState == 4 {
      SomebodyGrabbed(s);
    }
    hide AfterInput, GrabFrom, NobodyInReach;
  }

  lemma SomebodyGrabbed(s: Surroundings)
    requires s.Valid()
    ensures GrabFrom(NOBODY, 0.0, s.others, 0) == NOBODY <==> NobodyInReach(s)
  {
    GrabIsNearest(NOBODY, 0.0, s.others, 0);
    if NobodyInReach(s) {
      NobodyGrabbed(s.others, 0);
    }
  }

  lemma NearestIsUnique(p: int, q: int, others: seq<Other>)
    requires IsNearest(p, others, |others|) && IsNearest(q, others, |others|)
    ensures p == q
  {
  }

  /** A hook in flight that may grab players grabs the nearest one in reach, and holds it if it may. */
  lemma TickGrabs(c: Core, s: Surroundings, useInput: bool, deferred: bool, p: nat)
    requires s.Valid() && InSlots(c) && InFlight(c, s, useInput) && MayGrab(c, s)
    requires p < MAX_CLIENTS && IsNearest(p, s.others, MAX_CLIENTS)
    ensures var d := Tick(c, s, useInput, deferred);
            var held := s.others[p].keeps && TickInFlight(c, s) < 60;
            && d.hookState == (if held then 5 else -1) && d.hookedPlayer == (if held then p else NOBODY)
            && d.hookTick == TickInFlight(c, s) + 1
            && d.newHook == (c.newHook && !deferred) && HookTells(d.events, true, false, false, false)
  {
    var d := AfterInput(c, s, useInput);
    FlightStarts(c, s, useInput);
    GrabIsNearest(NOBODY, 0.0, s.others, 0);
    NearestIsUnique(p, GrabFrom(NOBODY, 0.0, s.others, 0), s.others);
    hide AfterInput, GrabFrom, IsNearest;
    var e := if s.tooLong then d.(hookState := 1) else d;
    var f := GrabPlayer(e, s);
    assert f == e.(events := e.events + {HookAttachPlayer}, hookState := 5, hookedPlayer := p);
    assert MeetTile(f, s) == f;
  }
}
