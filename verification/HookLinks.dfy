/** Who hooks whom and who is listed as attached, over runs in which tees join a world and leave it
    (src/game/gamecore.cpp, src/game/server/entities/character.cpp). */
module HookLinks {
  import opened CharacterCore

  /** What a tee says about the links: whom it hooks, and who is attached to it. */
  datatype Link = Link(hooked: int, attached: set<nat>)

  /** The tees in the world, by their slots. */
  type Links = map<nat, Link>

  /** Who is attached to a tee hooks it. */
  predicate AttachedHook(w: Links) {
    forall i, j :: i in w && j in w && j in w[i].attached ==> w[j].hooked == i
  }

  /** Who hooks a tee is attached to it. */
  predicate HookingAreAttached(w: Links) {
    forall i, j :: i in w && j in w && w[j].hooked == i ==> j in w[i].attached
  }

  /** The players attached to the tee in slot `i`, after `id` let go of `was` and hooked `now`. */
  function Reattached(attached: set<nat>, i: nat, id: nat, was: int, now: int): set<nat> {
    if was == now then attached
    else if i == was then attached - {id}
    else if i == now then attached + {id}
    else attached
  }

  /** The links after the tee in slot `id` hooked `player`, if there is one. */
  function Rehooked(w: Links, id: nat, player: int): Links {
    if id !in w then w
    else
      map i | i in w ::
        Link(if i == id then player else w[i].hooked, Reattached(w[i].attached, i, id, w[id].hooked, player))
  }

  /** The same for several players, one after the other. */
  function RehookedAll(w: Links, id: nat, players: seq<int>): Links {
    if players == [] then w
    else Rehooked(RehookedAll(w, id, players[..|players| - 1]), id, players[|players| - 1])
  }

  /** The tee in slot `id` set its hook a number of times, and nothing else happened. */
  ghost predicate Rehooks(w: Links, id: nat, w': Links) {
    exists players :: w' == RehookedAll(w, id, players)
  }

  lemma RehooksNone(w: Links, id: nat)
    ensures Rehooks(w, id, w)
  {
    assert w == RehookedAll(w, id, []);
  }

  lemma RehooksMore(w: Links, id: nat, w': Links, player: int)
    requires Rehooks(w, id, w')
    ensures Rehooks(w, id, Rehooked(w', id, player))
  {
    hide Rehooked;
    var players :| w' == RehookedAll(w, id, players);
    assert (players + [player])[..|players|] == players;
    assert Rehooked(w', id, player) == RehookedAll(w, id, players + [player]);
  }

  lemma RehooksJoin(w: Links, id: nat, w': Links, w'': Links)
    requires Rehooks(w, id, w') && Rehooks(w', id, w'')
    ensures Rehooks(w, id, w'')
  {
    var players :| w'' == RehookedAll(w', id, players);
    RehooksAll(w, id, w', players);
  }

  lemma {:induction false} RehooksAll(w: Links, id: nat, w': Links, players: seq<int>)
    requires Rehooks(w, id, w')
    ensures Rehooks(w, id, RehookedAll(w', id, players))
  {
    hide Rehooked, Rehooks;
    if players != [] {
      var front := players[..|players| - 1];
      RehooksAll(w, id, w', front);
      RehooksMore(w, id, RehookedAll(w', id, front), players[|players| - 1]);
    }
  }

  /** What a tick finds out about the slots is true. */
  predicate Fits(w: Links, s: Surroundings) {
    s.Valid() && forall i: nat :: i < MAX_CLIENTS ==> (s.others[i].live <==> i in w)
  }

  /** What happens to the links: a tee has a tick, in which it sets its hook to `players` one after the other, sets its
      hook outside of a tick, is reset, or takes or leaves its slot. It joins with its hook at rest, after a pause still
      with its old list. A pause is a release and a leave, a death only a leave. */
  datatype Step =
    | Tick(id: nat, players: seq<int>, core: Core, s: Surroundings, useInput: bool, deferred: bool)
    | Rehook(id: nat, player: int)
    | Reset(id: nat)
    | Join(id: nat, attached: set<nat>)
    | Leave(id: nat)

  predicate Enabled(w: Links, step: Step) {
    match step
    case Tick(id, players, c, s, useInput, deferred) =>
      && id in w && Fits(w, s) && InSlots(c) && c.hookedPlayer == w[id].hooked
      && var w' := RehookedAll(w, id, players);
      id in w' && w'[id].hooked == CharacterCore.Tick(c, s, useInput, deferred).hookedPlayer
    case Rehook(id, player) => id in w && player >= NOBODY
    case Reset(id) => id in w
    case Join(id, _) => id !in w
    case Leave(id) => id in w
  }

  function Do(w: Links, step: Step): Links
    requires Enabled(w, step)
  {
    match step
    case Tick(id, players, _, _, _, _) => RehookedAll(w, id, players)
    case Rehook(id, player) => Rehooked(w, id, player)
    case Reset(id) => Forgotten(Rehooked(w, id, NOBODY), id)
    case Join(id, attached) => w[id := Link(NOBODY, attached)]
    case Leave(id) => w - {id}
  }

  /** The links with the list of the tee in slot `id` emptied. */
  function Forgotten(w: Links, id: nat): Links
    requires id in w
  {
    w[id := w[id].(attached := {})]
  }

  /** A tick of the code, as a step. */
  ghost predicate Ticks(w: Links, id: nat, c: Core, s: Surroundings, useInput: bool, deferred: bool, w': Links) {
    exists players :: Next(w, Tick(id, players, c, s, useInput, deferred), w')
  }

  lemma TickIsStep(w: Links, id: nat, c: Core, s: Surroundings, useInput: bool, deferred: bool, w': Links)
    requires id in w && id in w' && Fits(w, s) && Rehooks(w, id, w') && InSlots(c) && c.hookedPlayer == w[id].hooked
    requires w'[id].hooked == CharacterCore.Tick(c, s, useInput, deferred).hookedPlayer
    ensures Ticks(w, id, c, s, useInput, deferred, w')
  {
    hide CharacterCore.Tick, Fits;
    var players :| w' == RehookedAll(w, id, players);
    assert Next(w, Tick(id, players, c, s, useInput, deferred), w');
  }

  lemma RehookKeeps(w: Links, id: nat, player: int)
    ensures var w' := Rehooked(w, id, player);
            && w'.Keys == w.Keys
            && (forall i :: i in w && i != id ==> w'[i].hooked == w[i].hooked)
            && (AttachedHook(w) ==> AttachedHook(w'))
            && (HookingAreAttached(w) ==> HookingAreAttached(w'))
  {
  }

  lemma {:induction false} RehookAllKeeps(w: Links, id: nat, players: seq<int>)
    ensures var w' := RehookedAll(w, id, players);
            && w'.Keys == w.Keys
            && (forall i :: i in w && i != id ==> w'[i].hooked == w[i].hooked)
            && (AttachedHook(w) ==> AttachedHook(w'))
            && (HookingAreAttached(w) ==> HookingAreAttached(w'))
  {
    hide AttachedHook, HookingAreAttached, Rehooked;
    if players != [] {
      var front := players[..|players| - 1];
      RehookAllKeeps(w, id, front);
      RehookKeeps(RehookedAll(w, id, front), id, players[|players| - 1]);
    }
  }

  /** A tee that joins is not on anybody's list, and those on its own list hook it. */
  predicate JoinsUnlisted(w: Links, id: nat, attached: set<nat>) {
    && id !in attached
    && forall i :: i in w ==> id !in w[i].attached && (i in attached ==> w[i].hooked == id)
  }

  /** A tee that joins has all on its list who hook its slot. */
  predicate JoinsUnhooked(w: Links, id: nat, attached: set<nat>) {
    forall i :: i in w && w[i].hooked == id ==> i in attached
  }

  lemma ForgettingKeeps(w: Links, id: nat)
    requires id in w
    ensures AttachedHook(w) ==> AttachedHook(Forgotten(w, id))
    ensures HookingAreAttached(w) ==>
              (HookingAreAttached(Forgotten(w, id)) <==> forall i :: i in w ==> w[i].hooked != id)
  {
    var w' := Forgotten(w, id);
    assert forall i :: i in w ==> i in w' && w'[i].hooked == w[i].hooked;
    assert w'[id].attached == {};
  }

  lemma JoiningKeeps(w: Links, id: nat, attached: set<nat>)
    requires id !in w
    ensures var w' := w[id := Link(NOBODY, attached)];
            && (AttachedHook(w) ==> (AttachedHook(w') <==> JoinsUnlisted(w, id, attached)))
            && (HookingAreAttached(w) ==> (HookingAreAttached(w') <==> JoinsUnhooked(w, id, attached)))
  {
    var w' := w[id := Link(NOBODY, attached)];
    assert w'[id] == Link(NOBODY, attached);
    assert forall i :: i in w ==> i in w' && w'[i] == w[i];
  }

  lemma LeavingKeeps(w: Links, id: nat)
    ensures AttachedHook(w) ==> AttachedHook(w - {id})
    ensures HookingAreAttached(w) ==> HookingAreAttached(w - {id})
  {
  }

  /** What a step does to both directions. */
  lemma StepIsLinkedIff(w: Links, step: Step)
    requires Enabled(w, step)
    ensures AttachedHook(w) ==>
              (AttachedHook(Do(w, step)) <==> (step.Join? ==> JoinsUnlisted(w, step.id, step.attached)))
    ensures HookingAreAttached(w) ==> (HookingAreAttached(Do(w, step)) <==> KeepsHooking(w, step))
  {
    hide AttachedHook, HookingAreAttached, JoinsUnlisted, JoinsUnhooked, Fits, CharacterCore.Tick;
    match step {
      case Tick(id, players, _, _, _, _) => RehookAllKeeps(w, id, players);
      case Rehook(id, player) => RehookKeeps(w, id, player);
      case Reset(id) =>
        RehookKeeps(w, id, NOBODY);
        ForgettingKeeps(Rehooked(w, id, NOBODY), id);
      case Join(id, attached) => JoiningKeeps(w, id, attached);
      case Leave(id) => LeavingKeeps(w, id);
    }
  }

  predicate KeepsHooking(w: Links, step: Step) {
    match step
    case Reset(id) => forall i :: i in w && i != id ==> w[i].hooked != id
    case Join(id, attached) => JoinsUnhooked(w, id, attached)
    case _ => true
  }

  /** "Who is attached hooks" is spoiled only by joins: of a slot that is still on somebody's list, or with a list of
      tees that hook nobody there any more. */
  lemma AttachedHookIff(w: Links, step: Step)
    requires Enabled(w, step) && AttachedHook(w)
    ensures AttachedHook(Do(w, step)) <==> (step.Join? ==> JoinsUnlisted(w, step.id, step.attached))
  {
    hide Enabled, Do, AttachedHook, HookingAreAttached, JoinsUnlisted;
    StepIsLinkedIff(w, step);
  }

  /** And "who hooks is attached" is spoiled by a reset of a tee that others hook, and by a join into a slot that is
      still hooked. */
  lemma HookingAreAttachedIff(w: Links, step: Step)
    requires Enabled(w, step) && HookingAreAttached(w)
    ensures HookingAreAttached(Do(w, step)) <==> KeepsHooking(w, step)
  {
    hide Enabled, Do, AttachedHook, HookingAreAttached, JoinsUnlisted, KeepsHooking;
    StepIsLinkedIff(w, step);
  }

  // Runs, from the empty world.

  ghost predicate IsRun(worlds: seq<Links>, steps: seq<Step>) {
    && |worlds| == |steps| + 1 && worlds[0] == map[]
    && forall i :: 0 <= i < |steps| ==> Next(worlds[i], steps[i], worlds[i + 1])
  }

  predicate Next(w: Links, step: Step, w': Links) {
    Enabled(w, step) && w' == Do(w, step)
  }

  /** Steps that spoil neither direction. */
  predicate IsClean(w: Links, step: Step) {
    (step.Join? ==> JoinsUnlisted(w, step.id, step.attached)) && KeepsHooking(w, step)
  }

  /** The relation holds in both directions throughout a run exactly if all its steps are clean. */
  lemma {:induction false} RunIsLinkedIff(worlds: seq<Links>, steps: seq<Step>, n: nat)
    requires IsRun(worlds, steps) && n <= |steps|
    ensures (forall i :: 0 <= i <= n ==> AttachedHook(worlds[i]) && HookingAreAttached(worlds[i])) <==>
              forall i :: 0 <= i < n ==> IsClean(worlds[i], steps[i])
  {
    hide AttachedHook, HookingAreAttached, Enabled, Do, JoinsUnlisted, KeepsHooking;
    if n == 0 {
      EmptyIsLinked(worlds[0]);
    } else {
      RunIsLinkedIff(worlds, steps, n - 1);
      assert Next(worlds[n - 1], steps[n - 1], worlds[n]);
      StepIsLinkedIff(worlds[n - 1], steps[n - 1]);
    }
  }

  lemma EmptyIsLinked(w: Links)
    requires w == map[]
    ensures AttachedHook(w) && HookingAreAttached(w)
  {
  }

  // Hooks on tees that are gone.

  /** A tick never ends with a hook on an empty slot. */
  lemma TickHooksLive(c: Core, s: Surroundings, useInput: bool, deferred: bool)
    requires s.Valid() && HookIsSound(c)
    ensures var hooked := CharacterCore.Tick(c, s, useInput, deferred).hookedPlayer;
            hooked != NOBODY ==> 0 <= hooked < MAX_CLIENTS && s.others[hooked].live
  {
    var d := AfterInput(c, s, useInput);
    InputKeepsHookSound(c, s, useInput);
    MoveHookKeepsHookSound(d, s);
    HoldHookKeepsHookSound(MoveHook(d, s), s);
    hide AfterInput, MoveHook, GrabFrom;
  }

  lemma {:induction false} GrabsLive(hooked: int, best: real, others: seq<Other>, i: nat)
    requires i <= |others|
    ensures var p := GrabFrom(hooked, best, others, i); p != hooked ==> 0 <= p < |others| && others[p].live
    decreases |others| - i
  {
    if i < |others| {
      if Grabbable(others[i]) && (hooked == NOBODY || others[i].distance < best) {
        GrabsLive(i, others[i].distance, others, i + 1);
      } else {
        GrabsLive(hooked, best, others, i + 1);
      }
    }
  }

  lemma MoveHookGrabsLive(c: Core, s: Surroundings)
    requires s.Valid()
    ensures var p := MoveHook(c, s).hookedPlayer;
            p != NOBODY && p != c.hookedPlayer ==> 0 <= p < MAX_CLIENTS && s.others[p].live
  {
    GrabsLive(c.hookedPlayer, 0.0, s.others, 0);
    hide GrabFrom;
  }

  lemma InputGrabsNobody(c: Core, s: Surroundings, useInput: bool)
    ensures var p := AfterInput(c, s, useInput).hookedPlayer; p == NOBODY || p == c.hookedPlayer
  {
    var b := c.(events := {});
    JumpsLeaveHook(b, s, HandleJump(b, s));
    var e := Input(b, s, useInput);
    JumpsLeaveHook(e, s, Land(e, s.grounded));
    hide HandleJump, Land;
  }

  /** Whatever the state of its hook was, a tick does not grab at an empty slot. */
  lemma TickGrabsLive(c: Core, s: Surroundings, useInput: bool, deferred: bool)
    requires s.Valid() && InSlots(c)
    ensures var p := CharacterCore.Tick(c, s, useInput, deferred).hookedPlayer;
            p != NOBODY && p != c.hookedPlayer ==> 0 <= p < MAX_CLIENTS && s.others[p].live
  {
    InputGrabsNobody(c, s, useInput);
    MoveHookGrabsLive(AfterInput(c, s, useInput), s);
    MoveHookStaysInSlots(AfterInput(c, s, useInput), s);
    hide AfterInput, MoveHook;
  }

  /** The slot stays empty until it is joined. */
  lemma {:induction false} StaysEmpty(worlds: seq<Links>, steps: seq<Step>, i: nat, j: nat, k: nat)
    requires IsRun(worlds, steps) && i < j <= |steps| && steps[i] == Leave(k)
    requires forall m :: i < m < j && steps[m].Join? ==> steps[m].id != k
    ensures k !in worlds[j]
    decreases j
  {
    hide Enabled, Do;
    if j > i + 1 {
      StaysEmpty(worlds, steps, i, j - 1, k);
    }
    assert Next(worlds[j - 1], steps[j - 1], worlds[j]);
    StepKeepsSlots(worlds[j - 1], steps[j - 1]);
  }

  lemma StepKeepsSlots(w: Links, step: Step)
    requires Enabled(w, step)
    ensures Do(w, step).Keys ==
            if step.Join? then w.Keys + {step.id} else if step.Leave? then w.Keys - {step.id} else w.Keys
  {
    hide Fits, CharacterCore.Tick, Rehooked;
    match step {
      case Tick(id, players, _, _, _, _) => RehookAllKeeps(w, id, players);
      case Rehook(id, player) => RehookKeeps(w, id, player);
      case Reset(id) => RehookKeeps(w, id, NOBODY);
      case _ =>
    }
  }

  /** Only a hook set on purpose, outside of a tick, can get to an empty slot. */
  lemma StepSparesEmpty(w: Links, step: Step, k: nat, u: nat)
    requires Enabled(w, step) && k !in w && u in Do(w, step) && (step.Rehook? ==> step.player != k)
    ensures (u in w && w[u].hooked != k) || SetsHook(step, u) ==> Do(w, step)[u].hooked != k
  {
    match step {
      case Tick(id, players, c, s, useInput, deferred) =>
        RehookAllKeeps(w, id, players);
        TickGrabsLive(c, s, useInput, deferred);
        if HookIsSound(c) {
          TickHooksLive(c, s, useInput, deferred);
        }
        hide CharacterCore.Tick, RehookedAll;
      case Rehook(id, player) => RehookKeeps(w, id, player);
      case Reset(id) => RehookKeeps(w, id, NOBODY);
      case _ =>
    }
  }

  /** A tick of the tee in slot `u`, whose hook is sound, as ticks leave it (`TickKeepsHookSound`), or its join. */
  predicate SetsHook(step: Step, u: nat) {
    step.id == u && ((step.Tick? && HookIsSound(step.core)) || step.Join?)
  }

  /** Between the steps `i` and `j`, the tee in slot `u` had a tick or joined. */
  ghost predicate HadTick(steps: seq<Step>, i: nat, j: nat, u: nat)
    requires j <= |steps|
  {
    exists m :: i < m < j && SetsHook(steps[m], u)
  }

  /** A hook outlives the tee it holds only until its owner's next tick: while slot `k` is empty, a tee that had a tick
      since it was left does not hook `k`, unless it was made to outside of a tick. */
  lemma {:induction false} NobodyHooksGone(worlds: seq<Links>, steps: seq<Step>, i: nat, j: nat, k: nat, u: nat)
    requires IsRun(worlds, steps) && i < j <= |steps| && steps[i] == Leave(k) && u in worlds[j]
    requires forall m :: i < m < j ==> IsOtherStep(steps[m], k)
    requires HadTick(steps, i, j, u)
    ensures worlds[j][u].hooked != k
    decreases j
  {
    hide Enabled, Do;
    var w, step := worlds[j - 1], steps[j - 1];
    assert Next(w, step, worlds[j]);
    StaysEmpty(worlds, steps, i, j - 1, k);
    StepSparesEmpty(w, step, k, u);
    StepKeepsSlots(w, step);
    if !SetsHook(step, u) {
      NobodyHooksGone(worlds, steps, i, j - 1, k, u);
    }
  }

  /** Nobody joins slot `k`, nor is a hook set to it outside of a tick. */
  predicate IsOtherStep(step: Step, k: nat) {
    (step.Join? ==> step.id != k) && (step.Rehook? ==> step.player != k)
  }

  /** So a slot that was empty while everybody had a tick can be joined again, and still who hooks is attached. */
  lemma RejoiningKeepsHooking(worlds: seq<Links>, steps: seq<Step>, i: nat, j: nat, k: nat)
    requires IsRun(worlds, steps) && i < j < |steps| && steps[i] == Leave(k) && steps[j] == Join(k, {})
    requires forall m :: i < m < j ==> IsOtherStep(steps[m], k)
    requires forall u :: u in worlds[j] ==> HadTick(steps, i, j, u)
    requires HookingAreAttached(worlds[j])
    ensures HookingAreAttached(worlds[j + 1])
  {
    hide HookingAreAttached, HadTick, Enabled, Do, IsOtherStep;
    assert Next(worlds[j], steps[j], worlds[j + 1]);
    forall u | u in worlds[j]
      ensures worlds[j][u].hooked != k
    {
      NobodyHooksGone(worlds, steps, i, j, k, u);
    }
    HookingAreAttachedIff(worlds[j], steps[j]);
  }

  /** The other direction does not survive a death: the tee in slot 0 hooks the one in slot 1, dies and joins again. It
      hooks nobody, and is still on the list. */
  lemma RespawnStaysListed() returns (worlds: seq<Links>, steps: seq<Step>)
    ensures IsRun(worlds, steps) && HookingAreAttached(worlds[|steps|]) && !AttachedHook(worlds[|steps|])
  {
    var w0: Links := map[];
    var w1 := Do(w0, Join(0, {}));
    var w2 := Do(w1, Join(1, {}));
    var w3 := Do(w2, Rehook(0, 1));
    var w4 := Do(w3, Leave(0));
    var w5 := Do(w4, Join(0, {}));
    worlds := [w0, w1, w2, w3, w4, w5];
    steps := [Join(0, {}), Join(1, {}), Rehook(0, 1), Leave(0), Join(0, {})];
    assert w5[0] == Link(NOBODY, {}) && w5[1] == Link(NOBODY, {0});
    assert forall i :: 0 <= i < 5 ==> Next(worlds[i], steps[i], worlds[i + 1]);
  }
}
