/** The tees of one world as objects (src/game/gamecore.cpp): who hooks whom, and who is told so. */
module HookWorld {
  import opened CharacterCore
  import Collision
  import HookLinks

  class WorldCore {
    const characters: array<Tee?>

    constructor ()
      ensures Valid() && fresh(characters) && Tees() == {}
      ensures forall i :: 0 <= i < MAX_CLIENTS ==> characters[i] == null
    {
      characters := new Tee?[MAX_CLIENTS](i => null);
    }

    /** The ids of the tees are their slots. */
    ghost predicate Valid()
      reads characters
    {
      && characters.Length == MAX_CLIENTS
      && forall i {:trigger characters[i]} :: 0 <= i < MAX_CLIENTS && characters[i] != null ==>
           characters[i].id == i && characters[i].world == this
    }

    predicate Taken(slot: nat)
      requires Valid() && slot < MAX_CLIENTS
      reads characters
    {
      characters[slot] != null
    }

    ghost function Tees(): set<Tee>
      reads characters
    {
      set i | 0 <= i < characters.Length && characters[i] != null :: characters[i]
    }

    /** The links of the tees as values. */
    ghost function Links(): HookLinks.Links
      reads characters, Tees()`hookedPlayer, Tees()`attachedPlayers
    {
      map i | 0 <= i < characters.Length && characters[i] != null ::
        HookLinks.Link(characters[i].hookedPlayer, characters[i].attachedPlayers)
    }

    /** A tee enters its slot. */
    method Join(tee: Tee)
      requires Valid() && tee.id < MAX_CLIENTS && tee.world == this && characters[tee.id] == null
      requires tee.hookedPlayer == NOBODY
      modifies characters
      ensures tee.Live() && characters[..] == old(characters[..])[tee.id := tee]
      ensures Links() == HookLinks.Do(old(Links()), HookLinks.Join(tee.id, tee.attachedPlayers))
    {
      characters[tee.id] := tee;
    }

    /** A tee dies or pauses: its slot is empty, and nobody is told. */
    method Leave(id: nat)
      requires Valid() && id < MAX_CLIENTS && characters[id] != null
      modifies characters
      ensures Valid() && characters[id] == null
      ensures Links() == HookLinks.Do(old(Links()), HookLinks.Leave(id))
    {
      characters[id] := null;
    }

    /** Who is attached to a tee hooks it. */
    ghost predicate AttachedHook()
      reads characters, Tees()`hookedPlayer, Tees()`attachedPlayers
    {
      forall t, u :: t in Tees() && u in Tees() && u.id in t.attachedPlayers ==> u.hookedPlayer == t.id
    }

    /** Who hooks a tee is attached to it. */
    ghost predicate HookingAreAttached()
      reads characters, Tees()`hookedPlayer, Tees()`attachedPlayers
    {
      forall t, u :: t in Tees() && u in Tees() && u.hookedPlayer == t.id ==> u.id in t.attachedPlayers
    }

    /** What a step must keep. */
    twostate predicate KeepsLinks()
      reads characters, Tees()`hookedPlayer, Tees()`attachedPlayers
    {
      && (old(AttachedHook()) ==> AttachedHook())
      && (old(HookingAreAttached()) ==> HookingAreAttached())
    }
  }

  /** `CNetObj_CharacterCore`, as far as it is about jumps and hook. */
  datatype NetCore = NetCore(hookState: int, hookTick: int, hookedPlayer: int, jumped: JumpBits)

  class Tee {
    const id: nat
    const world: WorldCore
    var jumped: JumpBits
    var jumpedTotal: int
    var jumps: int
    var hookState: int
    var hookTick: int
    var hookedPlayer: int
    var newHook: bool
    var events: set<Event>
    var attachedPlayers: set<nat>

    constructor (id: nat, world: WorldCore)
      ensures this.id == id && this.world == world
      ensures hookedPlayer == NOBODY && attachedPlayers == {}
    {
      this.id := id;
      this.world := world;
      hookedPlayer := NOBODY;
      attachedPlayers := {};
    }

    function Value(): Core
      reads this
    {
      Core(jumped, jumpedTotal, jumps, hookState, hookTick, hookedPlayer, newHook, events)
    }

    /** A tee in its slot. */
    ghost predicate Live()
      reads this`hookedPlayer, world.characters
    {
      world.Valid() && id < MAX_CLIENTS && world.characters[id] == this && NOBODY <= hookedPlayer < MAX_CLIENTS
    }

    /** The surroundings fit the world: taken slots, and the tee does not hook itself. */
    ghost predicate Sees(s: Surroundings)
      requires world.Valid() && id < MAX_CLIENTS
      reads world.characters
    {
      && s.Valid() && s.others[id].skipped
      && forall i :: 0 <= i < MAX_CLIENTS ==> (s.others[i].live <==> world.Taken(i))
    }

    /** `SetHookedPlayer` */
    method SetHookedPlayer(player: int)
      requires Live() && NOBODY <= player < MAX_CLIENTS
      modifies this`hookedPlayer, world.Tees()`attachedPlayers
      ensures Live() && hookedPlayer == player
      ensures forall t :: t in world.Tees() ==>
                t.attachedPlayers == HookLinks.Reattached(old(t.attachedPlayers), t.id, id, old(hookedPlayer), player)
      ensures world.KeepsLinks()
      ensures world.Links() == HookLinks.Rehooked(old(world.Links()), id, player)
    {
      hide WorldCore.KeepsLinks, HookLinks.Rehooked, WorldCore.Links;
      ghost var links := world.Links();
      LinksAre(world);
      MoveHand(player);
      RehookedAre(this, links);
      RehookingKeepsLinks(this);
    }

    method MoveHand(player: int)
      requires Live() && NOBODY <= player < MAX_CLIENTS
      modifies this`hookedPlayer, world.Tees()`attachedPlayers
      ensures Live() && hookedPlayer == player
      ensures forall t :: t in world.Tees() ==>
                t.attachedPlayers == HookLinks.Reattached(old(t.attachedPlayers), t.id, id, old(hookedPlayer), player)
    {
      if player != hookedPlayer {
        if hookedPlayer != NOBODY {
          var other := world.characters[hookedPlayer];
          if other != null {
            other.attachedPlayers := other.attachedPlayers - {id};
          }
        }
        if player != NOBODY {
          var other := world.characters[player];
          if other != null {
            other.attachedPlayers := other.attachedPlayers + {id};
          }
        }
        hookedPlayer := player;
      }
    }

    /** `Reset`: it lets go, and forgets who is attached, without telling them. */
    method Reset()
      requires Live()
      modifies this, world.Tees()`attachedPlayers
      ensures Live() && Value() == CharacterCore.Reset()
      ensures old(world.AttachedHook()) ==> world.AttachedHook()
      ensures old(world.AttachedHook() && world.HookingAreAttached()) ==>
                (world.HookingAreAttached() <==>
                 forall t :: t in world.Tees() && t != this ==> t.hookedPlayer != id)
      ensures world.Links() == HookLinks.Do(old(world.Links()), HookLinks.Reset(id))
    {
      hide WorldCore.AttachedHook, WorldCore.HookingAreAttached, WorldCore.Tees, WorldCore.Valid, WorldCore.Links,
        HookLinks.Reattached, HookLinks.Rehooked, HookLinks.Rehooks;
      newHook := false;
      hookTick := 0;
      hookState := HOOK_IDLE;
      SetHookedPlayer(NOBODY);
      label released:
      attachedPlayers := {};
      jumped := 0;
      jumpedTotal := 0;
      jumps := 2;
      events := {};
      ForgettingKeepsHalf@released(this);
    }

    /** `Read` */
    method Read(net: NetCore)
      requires Live() && NOBODY <= net.hookedPlayer < MAX_CLIENTS
      modifies this`hookState, this`hookTick, this`hookedPlayer, this`jumped, world.Tees()`attachedPlayers
      ensures Live() && world.KeepsLinks()
      ensures hookState == net.hookState && hookTick == net.hookTick && hookedPlayer == net.hookedPlayer
      ensures jumped == net.jumped
      ensures world.Links() == HookLinks.Rehooked(old(world.Links()), id, net.hookedPlayer)
    {
      hide WorldCore.AttachedHook, WorldCore.HookingAreAttached, WorldCore.Tees, WorldCore.Valid, WorldCore.Links,
        HookLinks.Reattached, HookLinks.Rehooked, HookLinks.Rehooks;
      hookState := net.hookState;
      hookTick := net.hookTick;
      SetHookedPlayer(net.hookedPlayer);
      jumped := net.jumped;
    }

    method HandleJump(s: Surroundings)
      requires Live()
      modifies this`jumped, this`jumpedTotal, this`events
      ensures Live() && world.KeepsLinks() && Value() == CharacterCore.HandleJump(old(Value()), s)
      ensures world.Links() == old(world.Links())
    {
      hide WorldCore.AttachedHook, WorldCore.HookingAreAttached, WorldCore.Tees, WorldCore.Valid, WorldCore.Links,
        HookLinks.Reattached, HookLinks.Rehooked, HookLinks.Rehooks;
      if s.jump {
        if jumped & 1 == 0 {
          if s.grounded && (jumped & 2 == 0 || jumps != 0) {
            events := events + {GroundJump};
            if jumps > 1 {
              jumped := jumped | 1;
            } else {
              jumped := jumped | 3;
            }
            jumpedTotal := 0;
          } else if jumped & 2 == 0 {
            events := events + {AirJump};
            jumped := jumped | 3;
            jumpedTotal := jumpedTotal + 1;
          }
        }
      } else {
        jumped := jumped & !1;
      }
    }

    method HandleHook(s: Surroundings)
      requires Live()
      modifies this`hookState, this`hookTick, this`hookedPlayer, this`events, world.Tees()`attachedPlayers
      ensures Live() && world.KeepsLinks() && Value() == CharacterCore.HandleHook(old(Value()), s)
      ensures HookLinks.Rehooks(old(world.Links()), id, world.Links())
    {
      hide WorldCore.AttachedHook, WorldCore.HookingAreAttached, WorldCore.Tees, WorldCore.Valid, WorldCore.Links,
        HookLinks.Reattached, HookLinks.Rehooked, HookLinks.Rehooks;
      RehooksOnce(world.Links(), id, NOBODY);
      if s.hook {
        if hookState == HOOK_IDLE {
          hookState := HOOK_FLYING;
          SetHookedPlayer(NOBODY);
          hookTick := s.launchTick;
          events := events + {HookLaunch};
        }
      } else {
        SetHookedPlayer(NOBODY);
        hookState := HOOK_IDLE;
      }
    }

    /** The loop over the players: `distance` is the distance of the one that was grabbed last. */
    method GrabPlayers(s: Surroundings)
      requires Live() && Sees(s)
      modifies this`hookState, this`hookedPlayer, this`events, world.Tees()`attachedPlayers
      ensures Live() && world.KeepsLinks() && Value() == GrabPlayer(old(Value()), s)
      ensures HookLinks.Rehooks(old(world.Links()), id, world.Links())
    {
      hide WorldCore.AttachedHook, WorldCore.HookingAreAttached, WorldCore.Tees, WorldCore.Valid, WorldCore.Links,
        HookLinks.Reattached, HookLinks.Rehooked, HookLinks.Rehooks;
      ghost var links := world.Links();
      HookLinks.RehooksNone(links, id);
      if !s.hookHitDisabled && s.playerHooking && (hookState == HOOK_FLYING || !newHook) {
        ghost var c := Value();
        var distance := 0.0;
        for i := 0 to MAX_CLIENTS
          invariant Live() && world.KeepsLinks() && HookLinks.Rehooks(links, id, world.Links())
          invariant GrabFrom(hookedPlayer, distance, s.others, i) == GrabFrom(c.hookedPlayer, 0.0, s.others, 0)
          invariant c.hookedPlayer != NOBODY ==> hookedPlayer == c.hookedPlayer && distance == 0.0
          invariant Value() == if hookedPlayer == c.hookedPlayer then c else
              c.(events := c.events + {HookAttachPlayer}, hookState := HOOK_GRABBED, hookedPlayer := hookedPlayer)
        {
          var other := s.others[i];
          assert other in s.others;
          if world.Taken(i) && !other.skipped {
            if other.near {
              if hookedPlayer == NOBODY || other.distance < distance {
                events := events + {HookAttachPlayer};
                hookState := HOOK_GRABBED;
                HookLinks.RehooksMore(links, id, world.Links(), i);
                SetHookedPlayer(i);
                distance := other.distance;
              }
            }
          }
        }
      }
    }

    method Fly(s: Surroundings)
      requires Live() && Sees(s) && hookState == HOOK_FLYING
      modifies this`hookState, this`hookedPlayer, this`newHook, this`events, world.Tees()`attachedPlayers
      ensures Live() && world.KeepsLinks() && Value() == CharacterCore.Fly(old(Value()), s)
      ensures HookLinks.Rehooks(old(world.Links()), id, world.Links())
    {
      hide WorldCore.AttachedHook, WorldCore.HookingAreAttached, WorldCore.Tees, WorldCore.Valid, WorldCore.Links,
        HookLinks.Reattached, HookLinks.Rehooked, HookLinks.Rehooks, GrabPlayer, Sees;
      if s.tooLong {
        hookState := HOOK_RETRACT_START;
      }
      var goingToHitGround, goingToRetract, goingThroughTele := false, false, false;
      if s.hit != 0 {
        if s.hit == Collision.TILE_NOHOOK {
          goingToRetract := true;
        } else if s.hit == TILE_TELEINHOOK {
          goingThroughTele := true;
        } else {
          goingToHitGround := true;
        }
      }
      GrabPlayers(s);
      if hookState == HOOK_FLYING {
        if goingToHitGround {
          events := events + {HookAttachGround};
          hookState := HOOK_GRABBED;
        } else if goingToRetract {
          events := events + {HookHitNohook};
          hookState := HOOK_RETRACT_START;
        }
        if goingThroughTele && s.teleHasOut {
          events := {};
          HookLinks.RehooksMore(old(world.Links()), id, world.Links(), NOBODY);
          SetHookedPlayer(NOBODY);
          newHook := true;
        }
      }
    }

    method MoveHook(s: Surroundings)
      requires Live() && Sees(s)
      modifies this`hookState, this`hookedPlayer, this`newHook, this`events, world.Tees()`attachedPlayers
      ensures Live() && world.KeepsLinks() && Value() == CharacterCore.MoveHook(old(Value()), s)
      ensures HookLinks.Rehooks(old(world.Links()), id, world.Links())
    {
      hide WorldCore.AttachedHook, WorldCore.HookingAreAttached, WorldCore.Tees, WorldCore.Valid, WorldCore.Links,
        HookLinks.Reattached, HookLinks.Rehooked, HookLinks.Rehooks, CharacterCore.Fly, Sees;
      RehooksOnce(world.Links(), id, NOBODY);
      if hookState == HOOK_IDLE {
        SetHookedPlayer(NOBODY);
      } else if hookState >= HOOK_RETRACT_START && hookState < HOOK_RETRACT_END {
        hookState := hookState + 1;
      } else if hookState == HOOK_RETRACT_END {
        events := events + {HookRetract};
        hookState := HOOK_RETRACTED;
      } else if hookState == HOOK_FLYING {
        Fly(s);
      }
    }

    method HoldHook(s: Surroundings)
      requires Live() && Sees(s)
      modifies this`hookState, this`hookTick, this`hookedPlayer, world.Tees()`attachedPlayers
      ensures Live() && world.KeepsLinks() && Value() == CharacterCore.HoldHook(old(Value()), s)
      ensures HookLinks.Rehooks(old(world.Links()), id, world.Links())
    {
      hide WorldCore.AttachedHook, WorldCore.HookingAreAttached, WorldCore.Tees, WorldCore.Valid, WorldCore.Links,
        HookLinks.Reattached, HookLinks.Rehooked, HookLinks.Rehooks;
      RehooksOnce(world.Links(), id, NOBODY);
      if hookState == HOOK_GRABBED {
        if hookedPlayer != NOBODY {
          if world.Taken(hookedPlayer) && s.others[hookedPlayer].keeps {
          } else {
            SetHookedPlayer(NOBODY);
            hookState := HOOK_RETRACTED;
          }
        }
        hookTick := hookTick + 1;
        if hookedPlayer != NOBODY &&
           (hookTick > SERVER_TICK_SPEED + SERVER_TICK_SPEED / 5 || !world.Taken(hookedPlayer))
        {
          SetHookedPlayer(NOBODY);
          hookState := HOOK_RETRACTED;
        }
      }
    }

    method HandleInput(s: Surroundings, useInput: bool)
      requires Live()
      modifies this`jumped, this`jumpedTotal, this`hookState, this`hookTick, this`hookedPlayer, this`events,
               world.Tees()`attachedPlayers
      ensures Live() && world.KeepsLinks() && Value() == AfterInput(old(Value()), s, useInput)
      ensures HookLinks.Rehooks(old(world.Links()), id, world.Links())
    {
      hide WorldCore.AttachedHook, WorldCore.HookingAreAttached, WorldCore.Tees, WorldCore.Valid, WorldCore.Links,
        HookLinks.Reattached, HookLinks.Rehooked, HookLinks.Rehooks, CharacterCore.HandleJump, CharacterCore.HandleHook;
      HookLinks.RehooksNone(world.Links(), id);
      events := {};
      assert world.Links() == old(world.Links());
      if useInput {
        HandleJump(s);
        HandleHook(s);
      }
      if s.grounded {
        jumped := jumped & !2;
        jumpedTotal := 0;
      }
    }

    /** `Tick`, and the hook's part of `TickDeferred`. */
    method Tick(s: Surroundings, useInput: bool, doDeferredTick: bool)
      requires Live() && Sees(s)
      modifies this`jumped, this`jumpedTotal, this`hookState, this`hookTick, this`hookedPlayer, this`newHook,
               this`events, world.Tees()`attachedPlayers
      ensures Live() && world.KeepsLinks() && Value() == CharacterCore.Tick(old(Value()), s, useInput, doDeferredTick)
      ensures HookLinks.Ticks(old(world.Links()), id, old(Value()), s, useInput, doDeferredTick, world.Links())
    {
      hide WorldCore.AttachedHook, WorldCore.HookingAreAttached, WorldCore.Tees, WorldCore.Valid, WorldCore.Links,
        HookLinks.Reattached, HookLinks.Rehooked, HookLinks.Rehooks, AfterInput, CharacterCore.MoveHook,
        CharacterCore.HoldHook, Sees;
      ghost var c, w0 := Value(), world.Links();
      LinkIs(this, s);
      HandleInput(s, useInput);
      ghost var w1 := world.Links();
      MoveHook(s);
      HookLinks.RehooksJoin(w0, id, w1, world.Links());
      ghost var w2 := world.Links();
      HoldHook(s);
      HookLinks.RehooksJoin(w0, id, w2, world.Links());
      if doDeferredTick && hookState != HOOK_FLYING {
        newHook := false;
      }
      LinkIs(this, s);
      HookLinks.TickIsStep(w0, id, c, s, useInput, doDeferredTick, world.Links());
    }

    /** The landing in `Move`. */
    method Move(grounded: bool)
      requires Live()
      modifies this`jumped, this`jumpedTotal
      ensures Live() && world.KeepsLinks() && Value() == CharacterCore.Move(old(Value()), grounded)
    {
      if grounded {
        jumped := jumped & !2;
        jumpedTotal := 0;
      }
    }
  }

  /** Emptying a tee's list is right when nobody hooks it, and only then. */
  twostate lemma ForgettingKeepsHalf(tee: Tee)
    requires tee.Live() && old(tee.world.characters[..]) == tee.world.characters[..] && tee.attachedPlayers == {}
    requires forall t :: t in tee.world.Tees() ==> t.hookedPlayer == old(t.hookedPlayer)
    requires forall t :: t in tee.world.Tees() && t != tee ==> t.attachedPlayers == old(t.attachedPlayers)
    ensures old(tee.world.AttachedHook()) ==> tee.world.AttachedHook()
    ensures old(tee.world.HookingAreAttached()) ==>
              (tee.world.HookingAreAttached() <==>
               forall t :: t in tee.world.Tees() ==> t.hookedPlayer != tee.id)
    ensures tee.id in old(tee.world.Links())
    ensures tee.world.Links() == HookLinks.Forgotten(old(tee.world.Links()), tee.id)
  {
    assert tee in tee.world.Tees();
    var w := tee.world;
    assert forall i :: 0 <= i < MAX_CLIENTS ==> w.characters[..][i] == old(w.characters[..])[i];
    assert old(w.Tees()) == w.Tees();
  }

  lemma LinksAre(w: WorldCore)
    requires w.Valid()
    ensures forall t :: t in w.Tees() ==>
              t.id in w.Links() && w.Links()[t.id] == HookLinks.Link(t.hookedPlayer, t.attachedPlayers)
    ensures forall i :: i in w.Links() ==> i < MAX_CLIENTS && w.characters[i] in w.Tees() && w.characters[i].id == i
    ensures forall t :: t in w.Tees() ==> t.id < MAX_CLIENTS && w.characters[t.id] == t
    ensures forall i: nat {:trigger i in w.Links()} :: i in w.Links() <==> i < MAX_CLIENTS && w.characters[i] != null
  {
  }

  /** The links now, in terms of what they were. */
  lemma RehookedAre(tee: Tee, links: HookLinks.Links)
    requires tee.Live() && tee.id in links
    requires forall i: nat {:trigger i in links} :: i in links <==> i < MAX_CLIENTS && tee.world.characters[i] != null
    requires forall t :: t in tee.world.Tees() && t != tee ==> t.id in links && t.hookedPlayer == links[t.id].hooked
    requires forall t :: t in tee.world.Tees() ==>
               t.id in links && t.attachedPlayers ==
               HookLinks.Reattached(links[t.id].attached, t.id, tee.id, links[tee.id].hooked, tee.hookedPlayer)
    ensures tee.world.Links() == HookLinks.Rehooked(links, tee.id, tee.hookedPlayer)
  {
    hide HookLinks.Reattached;
    var w := tee.world;
    LinksAre(w);
    hide WorldCore.Links, WorldCore.Valid, WorldCore.Tees;
    assert forall i: nat :: i in links <==> i in w.Links();
    forall i | i in links
      ensures w.Links()[i] == HookLinks.Rehooked(links, tee.id, tee.hookedPlayer)[i]
    {
      assert w.characters[i] in w.Tees();
    }
  }

  /** What a tee sees is what the links say. */
  lemma LinkIs(tee: Tee, s: Surroundings)
    requires tee.Live() && tee.Sees(s)
    ensures HookLinks.Fits(tee.world.Links(), s)
    ensures tee.id in tee.world.Links() && tee.world.Links()[tee.id].hooked == tee.hookedPlayer
  {
    LinksAre(tee.world);
    hide WorldCore.Links, WorldCore.Tees;
    assert tee in tee.world.Tees() by {
      IsTee(tee);
    }
  }

  lemma IsTee(tee: Tee)
    requires tee.Live()
    ensures tee in tee.world.Tees()
  {
  }

  lemma RehooksOnce(w: HookLinks.Links, id: nat, player: int)
    ensures HookLinks.Rehooks(w, id, w) && HookLinks.Rehooks(w, id, HookLinks.Rehooked(w, id, player))
  {
    HookLinks.RehooksNone(w, id);
    HookLinks.RehooksMore(w, id, w, player);
  }

  twostate lemma RehookingKeepsLinks(tee: Tee)
    requires tee.Live() && old(tee.world.Tees()) == tee.world.Tees()
    requires forall t :: t in tee.world.Tees() && t != tee ==> t.hookedPlayer == old(t.hookedPlayer)
    requires forall t :: t in tee.world.Tees() ==>
               t.attachedPlayers ==
               HookLinks.Reattached(old(t.attachedPlayers), t.id, tee.id, old(tee.hookedPlayer), tee.hookedPlayer)
    ensures tee.world.KeepsLinks()
  {
  }

  /** The relation among objects is the relation among their links. */
  lemma LinksAgree(w: WorldCore)
    requires w.Valid()
    ensures w.AttachedHook() <==> HookLinks.AttachedHook(w.Links())
    ensures w.HookingAreAttached() <==> HookLinks.HookingAreAttached(w.Links())
  {
    var links := w.Links();
    assert forall t :: t in w.Tees() ==>
      t.id in links && links[t.id] == HookLinks.Link(t.hookedPlayer, t.attachedPlayers);
    assert forall i :: i in links ==> w.characters[i] in w.Tees() && w.characters[i].id == i;
  }

  method TwoTees() returns (first: Tee, second: Tee)
    ensures first.world == second.world && first.id == 0 && second.id == 1 && first.Live() && second.Live()
    ensures fresh(first) && fresh(second) && fresh(first.world) && fresh(first.world.characters)
    ensures first.world.Tees() == {first, second}
    ensures first.hookedPlayer == NOBODY && second.hookedPlayer == NOBODY
    ensures first.attachedPlayers == {} && second.attachedPlayers == {}
  {
    var w := new WorldCore();
    first := new Tee(0, w);
    second := new Tee(1, w);
    w.Join(first);
    w.Join(second);
    assert w.characters[0] == first && w.characters[1] == second;
  }

  /** The first tee hooks the second. */
  method HookingPair() returns (hooker: Tee, hooked: Tee)
    ensures fresh(hooker) && fresh(hooked) && fresh(hooker.world.characters) && hooker.world == hooked.world
    ensures hooker.Live() && hooked.Live() && hooker != hooked && hooker.hookedPlayer == hooked.id
    ensures hooker.world.AttachedHook() && hooker.world.HookingAreAttached()
    ensures hooker.world.Tees() == {hooker, hooked}
  {
    hide WorldCore.AttachedHook, WorldCore.HookingAreAttached, WorldCore.Links, HookLinks.Reattached,
      HookLinks.Rehooked;
    hooker, hooked := TwoTees();
    LooseTeesAreLinked(hooker.world, hooker, hooked);
    hooker.SetHookedPlayer(1);
  }

  /** A reset that leaves a hook behind: after the second one's reset the first is not on the list of the attached any
      more. */
  method ResetForgetsHooker() returns (w: WorldCore)
    ensures w.Valid() && w.AttachedHook() && !w.HookingAreAttached()
  {
    hide WorldCore.AttachedHook, WorldCore.HookingAreAttached, WorldCore.Links, WorldCore.Tees, HookLinks.Do;
    var hooker, hooked := HookingPair();
    w := hooker.world;
    IsTee(hooker);
    hooked.Reset();
    IsTee(hooker);
  }

  lemma LooseTeesAreLinked(w: WorldCore, t: Tee, u: Tee)
    requires w.Tees() == {t, u} && t.hookedPlayer == NOBODY && u.hookedPlayer == NOBODY
    requires t.attachedPlayers == {} && u.attachedPlayers == {}
    ensures w.AttachedHook() && w.HookingAreAttached()
  {
  }
}
