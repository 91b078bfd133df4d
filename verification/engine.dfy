/**
 * The plugin's engine: one object holding the roster, the upcoming-attack
 * window, the safespot map, the Zuk-shield tracker, the final-phase flags and
 * the last recommendation, updated by the game's events. Facts the engine
 * only asks the game (whether the player is in the Inferno, positions,
 * health bars, NPC areas, the tick count) arrive as parameters of the
 * handlers; the posts to the companion prayer plugin are kept, in order, in
 * a ghost sequence.
 */
module Engine {
  import opened InfernoTypes
  import opened Settings
  import TW = ThreatWindow
  import PC = PrayerChoice
  import SS = Safespots
  import ZS = ZukShield
  import opened RosterOps

  /** The animation a nibbler plays when it dies. */
  const NibblerDeathAnimation: int := 7576

  // ---------------------------------------------------------------------------
  // Final-phase tick counter

  /**
   * The end of `onGameTick`: the tick on which the healers spawned is not
   * counted again (it was counted by the spawn); every later tick of the
   * final phase adds one.
   */
  function CountTick(finalPhase: bool, finalPhaseTick: bool, ticks: int): (r: (bool, int))
    ensures finalPhaseTick ==> r == (false, ticks)
    ensures !finalPhaseTick ==> r.0 == false && r.1 == (if finalPhase then ticks + 1 else ticks)
  {
    if finalPhaseTick then (false, ticks)
    else if finalPhase then (false, ticks + 1)
    else (false, ticks)
  }

  /** The counter after the healers' spawn (which sets it to 1 and marks the tick) and `k` game ticks. */
  function CountAfterHealers(k: nat): (bool, int)
  {
    if k == 0 then (true, 1)
    else
      var prev := CountAfterHealers(k - 1);
      CountTick(true, prev.0, prev.1)
  }

  /**
   * Counting the spawn's own tick as the first: after `k >= 1` game ticks
   * the counter reads `k` ticks since the final phase began.
   */
  lemma {:induction false} CountAfterHealersIs(k: nat)
    requires k >= 1
    ensures CountAfterHealers(k) == (false, k)
  {
    if k > 1 {
      CountAfterHealersIs(k - 1);
    }
  }

  // ---------------------------------------------------------------------------
  // Pieces of the tick

  /** The x at which the shield is predicted, when the reckoning gives one. */
  ghost predicate Predicted(s: ZS.Tracker, shield: Tile, roster: seq<Npc>, finalPhase: bool)
  {
    s.positiveX != -1 && s.negativeX != -1 && ZS.PredictAll(s, shield.x, roster, finalPhase).Some?
  }

  /**
   * The wave-69 part of `calculateSafespots` after the shield is observed:
   * the block behind the live shield (code 0) in the live modes, and the
   * block behind the predicted shield (code 2, drawn last) in the predicting
   * modes when a prediction exists.
   */
  ghost predicate ShieldSpots(mode: ShieldDisplayMode, s: ZS.Tracker, shield: Tile, roster: seq<Npc>, finalPhase: bool, spots: map<Tile, int>)
  {
    var live := mode == Live || mode == LivePlusPredict;
    var pred := (mode == Predict || mode == LivePlusPredict) && Predicted(s, shield, roster, finalPhase);
    && (forall tile: Tile :: tile in spots <==>
         (live && SS.InShieldBlock(tile, shield.x, shield.y)) ||
         (pred && SS.InShieldBlock(tile, ZS.PredictAll(s, shield.x, roster, finalPhase).value, shield.y)))
    && (forall tile: Tile :: pred && SS.InShieldBlock(tile, ZS.PredictAll(s, shield.x, roster, finalPhase).value, shield.y) ==>
         spots[tile] == 2)
    && (forall tile: Tile :: tile in spots && spots[tile] != 2 ==> live && spots[tile] == 0)
  }

  /** The shield blocks as `ShieldSpots` describes them, stamped into an empty map. */
  method ZukSafespots(mode: ShieldDisplayMode, s: ZS.Tracker, shield: Tile, roster: seq<Npc>, finalPhase: bool)
    returns (spots: map<Tile, int>)
    ensures ShieldSpots(mode, s, shield, roster, finalPhase, spots)
  {
    spots := map[];
    if mode == Live || mode == LivePlusPredict {
      spots := SS.StampShieldBlock(spots, shield.x, shield.y, 0);
    }
    if mode == Predict || mode == LivePlusPredict {
      var x := ZS.PredictShieldX(s, shield.x, roster, finalPhase);
      if x.Some? {
        spots := SS.StampShieldBlock(spots, x.value, shield.y, 2);
      }
    }
  }

  /** The shield display mode in force: off with safespots off, otherwise the mode of the current phase. */
  function ShieldMode(cfg: Config, finalPhase: bool): (mode: ShieldDisplayMode)
    ensures cfg.safespotDisplayMode == SafespotsOff ==> mode == ShieldOff
    ensures cfg.safespotDisplayMode != SafespotsOff ==> mode == (if finalPhase then cfg.shieldAfterHealers else cfg.shieldBeforeHealers)
  {
    if cfg.safespotDisplayMode == SafespotsOff then ShieldOff
    else if finalPhase then cfg.shieldAfterHealers
    else cfg.shieldBeforeHealers
  }

  /**
   * The safespot map `calculateSafespots` leaves: below wave 69 the codes
   * of the scanned tiles around the player, given the obstacles (empty with
   * safespots off); on wave 69 with the shield present the shield blocks,
   * given the tracker after its observation; otherwise empty.
   */
  ghost predicate SafespotsOf(host: Host, cfg: Config, wave: int, shieldPresent: bool, finalPhase: bool, roster: seq<Npc>,
                              player: Tile, obstacles: seq<Tile>, tracker: ZS.Tracker, shield: Tile, spots: map<Tile, int>)
  {
    if wave < 69 then
      (cfg.safespotDisplayMode == SafespotsOff ==> spots == map[]) &&
      (cfg.safespotDisplayMode != SafespotsOff ==>
        SS.ScanResult(host, cfg, roster, player, obstacles, SS.HalfSize(cfg.safespotsCheckSize), spots) &&
        forall tile: Tile :: tile in spots ==> spots[tile] == SS.TileCode(host, cfg, roster, tile, obstacles).value)
    else if wave == 69 && shieldPresent then ShieldSpots(ShieldMode(cfg, finalPhase), tracker, shield, roster, finalPhase, spots)
    else spots == map[]
  }

  /** The monsters' summed damage per style on the next tick decides the prayer. */
  function CombinedThreat(byTick: map<int, seq<Npc>>): Prayer
    requires 1 in byTick
  {
    var styleOf := (n: Npc) => n.attack;
    PC.PickByDamage(PC.DamageOn(byTick[1], Melee, styleOf), PC.DamageOn(byTick[1], Ranged, styleOf), PC.DamageOn(byTick[1], Magic, styleOf))
  }

  /**
   * The combined-threat prayer blocks at least as much of the next tick's
   * summed damage as either other prayer, and when every monster attacking
   * next tick uses one style it is that style's protection.
   */
  lemma CombinedThreatBlocksMost(byTick: map<int, seq<Npc>>, a: Attack)
    requires 1 in byTick
    ensures var styleOf := (n: Npc) => n.attack;
      var melee, ranged, magic := PC.DamageOn(byTick[1], Melee, styleOf), PC.DamageOn(byTick[1], Ranged, styleOf), PC.DamageOn(byTick[1], Magic, styleOf);
      PC.Blocked(CombinedThreat(byTick), melee, ranged, magic) >= melee &&
      PC.Blocked(CombinedThreat(byTick), melee, ranged, magic) >= ranged &&
      PC.Blocked(CombinedThreat(byTick), melee, ranged, magic) >= magic
    ensures a != Unknown && |byTick[1]| > 0 && (forall i :: 0 <= i < |byTick[1]| ==> byTick[1][i].attack == a) ==>
      CombinedThreat(byTick) == PC.Protection(a)
  {
    if a != Unknown && |byTick[1]| > 0 && (forall i :: 0 <= i < |byTick[1]| ==> byTick[1][i].attack == a) {
      PC.UniformStylePicksIt(byTick[1], a, (n: Npc) => n.attack);
    }
  }

  /** With the off-tick Jad option on and Jad present, no prayer becomes melee. */
  function OffTickJad(cfg: Config, jadPresent: bool, p: Option<Prayer>): (r: Option<Prayer>)
    ensures p.Some? ==> r == p
    ensures r.None? <==> p.None? && !(cfg.offTickMeleeJad && jadPresent)
  {
    if cfg.offTickMeleeJad && jadPresent && p.None? then Some(ProtectFromMelee) else p
  }

  /**
   * The prayers `doPraying` may settle on: the combined-threat prayer with
   * the attack-timer overlay on and several monsters attacking next tick;
   * otherwise the prayer of a kind with the smallest priority on tick 1
   * (below `Integer.MAX_VALUE`), or none when there is no such kind; in both
   * of the latter the off-tick Jad rule applies.
   */
  ghost predicate BestChoice(host: Host, cfg: Config, byTick: map<int, seq<Npc>>, upcoming: TW.Upcoming, jadPresent: bool,
                             best: Option<Prayer>)
  {
    if cfg.showAttackTimerOverlay && SeveralNextTick(byTick) then best == Some(CombinedThreat(byTick))
    else if 1 !in upcoming || forall a :: a in upcoming[1] ==> upcoming[1][a] >= INT_MAX then
      best == OffTickJad(cfg, jadPresent, None)
    else
      exists a :: a in upcoming[1] && upcoming[1][a] < INT_MAX && (forall b :: b in upcoming[1] ==> upcoming[1][a] <= upcoming[1][b]) &&
        best == OffTickJad(cfg, jadPresent, host.prayerOf(a))
  }

  method BestPrayer(host: Host, cfg: Config, byTick: map<int, seq<Npc>>, upcoming: TW.Upcoming, jadPresent: bool)
    returns (best: Option<Prayer>)
    ensures BestChoice(host, cfg, byTick, upcoming, jadPresent, best)
    ensures cfg.offTickMeleeJad && jadPresent ==> best.Some?
  {
    if cfg.showAttackTimerOverlay && SeveralNextTick(byTick) {
      var styleOf := (n: Npc) => n.attack;
      best := PC.HeaviestPrayer(byTick[1], styleOf);
    } else {
      var attack := PC.BestAttackNextTick(upcoming);
      best := if attack.Some? then host.prayerOf(attack.value) else None;
    }
    if cfg.offTickMeleeJad && best.None? && jadPresent {
      best := Some(ProtectFromMelee);
    }
  }

  // ---------------------------------------------------------------------------
  // The engine

  class InfernoEngine {
    var roster: seq<Npc>
    var upcoming: TW.Upcoming
    var closestAttack: Option<Attack>
    var attacksByTick: map<int, seq<Npc>>
    var simultaneous: set<Npc>
    var obstacles: seq<Tile>
    var safeSpots: map<Tile, int>
    var safeSpotAreas: map<int, set<Tile>>
    var waveNumber: int
    var finalPhase: bool
    var finalPhaseTick: bool
    var ticksSinceFinalPhase: int
    /** Whether the shield NPC (the glyph) is on the map. */
    var shieldPresent: bool
    var tracker: ZS.Tracker
    /** Whether Zuk is being followed for the spawn timer. */
    var zukPresent: bool
    var timerPresent: bool
    var timerRunning: bool
    var centralNibbler: Option<Npc>
    var blobDeathSpots: seq<Tile>
    var lastRecommended: Option<string>
    /** Every recommendation posted, in order. */
    ghost var posted: seq<string>

    /** The last recommendation is the last one posted; the shield tracker is consistent; the final-phase count starts at 1. */
    ghost predicate Valid()
      reads this`tracker, this`lastRecommended, this`posted, this`finalPhase, this`ticksSinceFinalPhase
    {
      ZS.Valid(tracker) &&
      (lastRecommended.None? <==> posted == []) &&
      (posted != [] ==> lastRecommended == Some(posted[|posted| - 1])) &&
      (finalPhase ==> ticksSinceFinalPhase >= 1)
    }

    /** The fields' initial values. */
    constructor ()
      ensures Valid()
      ensures roster == [] && upcoming == map[] && safeSpots == map[] && posted == []
      ensures !finalPhase && !finalPhaseTick && ticksSinceFinalPhase == 0 && waveNumber == 0
      ensures tracker == ZS.Initial
    {
      roster := [];
      upcoming := map[];
      closestAttack := None;
      attacksByTick := map[];
      simultaneous := {};
      obstacles := [];
      safeSpots := map[];
      safeSpotAreas := map[];
      waveNumber := 0;
      finalPhase := false;
      finalPhaseTick := false;
      ticksSinceFinalPhase := 0;
      shieldPresent := false;
      tracker := ZS.Initial;
      zukPresent := false;
      timerPresent := false;
      timerRunning := false;
      centralNibbler := None;
      blobDeathSpots := [];
      lastRecommended := None;
      posted := [];
    }

    /** `eventBus.post(new RecommendedPrayerChangedEvent(text))` followed by remembering it. */
    method Post(text: string)
      requires Valid()
      modifies this`posted, this`lastRecommended
      ensures Valid()
      ensures posted == old(posted) + [text] && lastRecommended == Some(text)
    {
      posted := posted + [text];
      lastRecommended := Some(text);
    }

    /**
     * `onMenuOptionClicked` with `processClickedSafespot`: a "Walk here"
     * click on a tile of the safespot map posts at once, whatever was posted
     * before, the prayer for the tile's code ("none" for code 0); a tile
     * whose code gives no prayer, a tile outside the map, or any other
     * click posts nothing.
     */
    method OnMenuOptionClicked(inInferno: bool, host: Host, cfg: Config, option: string, param0: int, param1: int)
      requires Valid()
      modifies this`posted, this`lastRecommended
      ensures Valid()
      ensures roster == old(roster) && safeSpots == old(safeSpots) && tracker == old(tracker)
      ensures var tile := Tile(param0, param1);
        if !inInferno || option != "Walk here" || tile !in safeSpots || safeSpots[tile] < 0 || safeSpots[tile] > 7 then
          posted == old(posted) && lastRecommended == old(lastRecommended)
        else if safeSpots[tile] == 0 then posted == old(posted) + ["none"]
        else exists p :: PC.SafespotPrayer(host, cfg, roster, safeSpots[tile], Some(p)) && posted == old(posted) + [PC.RecommendationText(Some(p))]
    {
      if !inInferno || option != "Walk here" {
        return;
      }
      var tile := Tile(param0, param1);
      assert forall t: Tile :: IsClickedTile(t, param0, param1) <==> t == tile;
      if tile !in safeSpots {
        return;
      }
      var value := safeSpots[tile];
      if value > 0 {
        var p := PC.PrayerForSafespotValue(host, cfg, roster, value);
        if p.Some? {
          Post(PC.RecommendationText(p));
        }
      } else if value == 0 {
        Post("none");
      }
    }

    /**
     * `onNpcSpawned`. The shield NPC is only remembered. A monster the
     * plugin does not recognise (`entry` is `None`) is ignored. A blob
     * joins at the end of the roster; every other monster at the front,
     * after its type's side effects: a mage restarts a running spawn timer
     * when Zuk is followed; Zuk restarts the shield tracking, leaves the
     * final phase and (with the spawn timer on) is followed with a new timer
     * whose running flag is `timerStartsRunning`; Zuk's healers start the
     * final phase and suspend Zuk's attack timer.
     */
    method OnNpcSpawned(inInferno: bool, cfg: Config, isShield: bool, entry: Option<Npc>, timerStartsRunning: bool)
      requires Valid()
      modifies this`roster, this`shieldPresent, this`finalPhase, this`finalPhaseTick, this`ticksSinceFinalPhase
      modifies this`tracker, this`zukPresent, this`timerPresent, this`timerRunning
      ensures Valid()
      ensures !inInferno || (!isShield && entry.None?) ==> unchanged(this)
      ensures inInferno && isShield ==>
        shieldPresent && roster == old(roster) && tracker == old(tracker) &&
        finalPhase == old(finalPhase) && finalPhaseTick == old(finalPhaseTick) && ticksSinceFinalPhase == old(ticksSinceFinalPhase) &&
        zukPresent == old(zukPresent) && timerPresent == old(timerPresent) && timerRunning == old(timerRunning)
      ensures inInferno && !isShield ==> shieldPresent == old(shieldPresent)
      ensures inInferno && !isShield && entry.Some? && entry.value.kind != Zuk ==> tracker == old(tracker)
      ensures inInferno && !isShield && entry.Some? && entry.value.kind == Blob ==> roster == old(roster) + [entry.value]
      ensures inInferno && !isShield && entry.Some? && entry.value.kind != Blob ==>
        |roster| == |old(roster)| + 1 && roster[0] == entry.value &&
        forall k :: 0 <= k < |old(roster)| ==>
          roster[k + 1] == (if entry.value.kind == HealerZuk && old(roster)[k].kind == Zuk then old(roster)[k].(ticks := -1) else old(roster)[k])
      ensures inInferno && !isShield && entry.Some? && entry.value.kind == Mage && old(zukPresent) && old(timerPresent) ==> timerRunning
      ensures inInferno && !isShield && entry.Some? && entry.value.kind == Zuk ==>
        !finalPhase && tracker == ZS.ResetOnZukSpawn(old(tracker)) &&
        (cfg.spawnTimerInfobox ==> zukPresent && timerPresent && timerRunning == timerStartsRunning)
      ensures inInferno && !isShield && entry.Some? && entry.value.kind == HealerZuk ==>
        finalPhase && finalPhaseTick && ticksSinceFinalPhase == 1
      ensures inInferno && !isShield && entry.Some? ==> var n := entry.value;
        && (n.kind != Zuk && n.kind != HealerZuk ==>
             finalPhase == old(finalPhase) && finalPhaseTick == old(finalPhaseTick) && ticksSinceFinalPhase == old(ticksSinceFinalPhase))
        && (n.kind == Zuk ==> finalPhaseTick == old(finalPhaseTick) && ticksSinceFinalPhase == old(ticksSinceFinalPhase))
        && (!(n.kind == Zuk && cfg.spawnTimerInfobox) ==> zukPresent == old(zukPresent) && timerPresent == old(timerPresent))
        && (!(n.kind == Zuk && cfg.spawnTimerInfobox) && !(n.kind == Mage && old(zukPresent) && old(timerPresent)) ==>
             timerRunning == old(timerRunning))
    {
      if !inInferno {
        return;
      }
      if isShield {
        shieldPresent := true;
        return;
      }
      if entry.None? {
        return;
      }
      Admit(cfg, entry.value, timerStartsRunning);
    }

    /** The recognised-monster part of `onNpcSpawned`, type by type. */
    method Admit(cfg: Config, n: Npc, timerStartsRunning: bool)
      requires Valid()
      modifies this`roster, this`finalPhase, this`finalPhaseTick, this`ticksSinceFinalPhase
      modifies this`tracker, this`zukPresent, this`timerPresent, this`timerRunning
      ensures Valid()
      ensures n.kind == Blob ==> roster == old(roster) + [n]
      ensures n.kind != Blob ==>
        |roster| == |old(roster)| + 1 && roster[0] == n &&
        forall k :: 0 <= k < |old(roster)| ==>
          roster[k + 1] == (if n.kind == HealerZuk && old(roster)[k].kind == Zuk then old(roster)[k].(ticks := -1) else old(roster)[k])
      ensures n.kind == Mage && old(zukPresent) && old(timerPresent) ==> timerRunning
      ensures n.kind == Zuk ==>
        !finalPhase && tracker == ZS.ResetOnZukSpawn(old(tracker)) &&
        (cfg.spawnTimerInfobox ==> zukPresent && timerPresent && timerRunning == timerStartsRunning)
      ensures n.kind != Zuk ==> tracker == old(tracker)
      ensures n.kind == HealerZuk ==> finalPhase && finalPhaseTick && ticksSinceFinalPhase == 1
      ensures n.kind != Zuk && n.kind != HealerZuk ==>
        finalPhase == old(finalPhase) && finalPhaseTick == old(finalPhaseTick) && ticksSinceFinalPhase == old(ticksSinceFinalPhase)
      ensures n.kind == Zuk ==> finalPhaseTick == old(finalPhaseTick) && ticksSinceFinalPhase == old(ticksSinceFinalPhase)
      ensures !(n.kind == Zuk && cfg.spawnTimerInfobox) ==> zukPresent == old(zukPresent) && timerPresent == old(timerPresent)
      ensures !(n.kind == Zuk && cfg.spawnTimerInfobox) && !(n.kind == Mage && old(zukPresent) && old(timerPresent)) ==>
        timerRunning == old(timerRunning)
    {
      SpawnSideEffects(cfg, n, timerStartsRunning);
      Enroll(n);
    }

    /** The type-specific effects of a spawn on the phase, the shield tracker and the spawn timer. */
    method SpawnSideEffects(cfg: Config, n: Npc, timerStartsRunning: bool)
      requires Valid()
      modifies this`finalPhase, this`finalPhaseTick, this`ticksSinceFinalPhase
      modifies this`tracker, this`zukPresent, this`timerPresent, this`timerRunning
      ensures Valid()
      ensures n.kind == Mage && old(zukPresent) && old(timerPresent) ==> timerRunning
      ensures n.kind == Zuk ==>
        !finalPhase && tracker == ZS.ResetOnZukSpawn(old(tracker)) &&
        (cfg.spawnTimerInfobox ==> zukPresent && timerPresent && timerRunning == timerStartsRunning)
      ensures n.kind != Zuk ==> tracker == old(tracker)
      ensures n.kind == HealerZuk ==> finalPhase && finalPhaseTick && ticksSinceFinalPhase == 1
      ensures n.kind != Zuk && n.kind != HealerZuk ==>
        finalPhase == old(finalPhase) && finalPhaseTick == old(finalPhaseTick) && ticksSinceFinalPhase == old(ticksSinceFinalPhase)
      ensures n.kind == Zuk ==> finalPhaseTick == old(finalPhaseTick) && ticksSinceFinalPhase == old(ticksSinceFinalPhase)
      ensures !(n.kind == Zuk && cfg.spawnTimerInfobox) ==> zukPresent == old(zukPresent) && timerPresent == old(timerPresent)
      ensures !(n.kind == Zuk && cfg.spawnTimerInfobox) && !(n.kind == Mage && old(zukPresent) && old(timerPresent)) ==>
        timerRunning == old(timerRunning)
    {
      if n.kind == Blob {
        return;
      }
      if n.kind == Mage && zukPresent && timerPresent {
        timerRunning := true;
      }
      if n.kind == Zuk {
        finalPhase := false;
        tracker := ZS.ResetOnZukSpawn(tracker);
        if cfg.spawnTimerInfobox {
          zukPresent := true;
          timerPresent := true;
          timerRunning := timerStartsRunning;
        }
      }
      if n.kind == HealerZuk {
        finalPhase := true;
        ticksSinceFinalPhase := 1;
        finalPhaseTick := true;
      }
    }

    /** The new entry's place in the roster: a blob at the end, any other monster at the front; Zuk's healers suspend Zuk's attack timer. */
    method Enroll(n: Npc)
      modifies this`roster
      ensures n.kind == Blob ==> roster == old(roster) + [n]
      ensures n.kind != Blob ==>
        |roster| == |old(roster)| + 1 && roster[0] == n &&
        forall k :: 0 <= k < |old(roster)| ==>
          roster[k + 1] == (if n.kind == HealerZuk && old(roster)[k].kind == Zuk then old(roster)[k].(ticks := -1) else old(roster)[k])
    {
      if n.kind == Blob {
        roster := roster + [n];
        return;
      }
      var rest := roster;
      if n.kind == HealerZuk {
        rest := SuspendZukTimers(roster);
      }
      roster := [n] + rest;
      assert forall k :: 0 <= k < |rest| ==> roster[k + 1] == rest[k];
    }

    /**
     * `onNpcDespawned`: the shield NPC is forgotten (and nothing else
     * happens); Zuk stops being followed and loses its timer; the entry
     * wrapping the NPC leaves the roster.
     */
    method OnNpcDespawned(inInferno: bool, isShield: bool, isZuk: bool, id: int)
      requires Valid()
      modifies this`roster, this`shieldPresent, this`zukPresent, this`timerPresent
      ensures Valid()
      ensures posted == old(posted) && tracker == old(tracker) && finalPhase == old(finalPhase)
      ensures !inInferno ==> roster == old(roster) && shieldPresent == old(shieldPresent)
      ensures inInferno && isShield ==> !shieldPresent && roster == old(roster)
      ensures inInferno && !isShield ==> roster == WithoutNpc(old(roster), id)
      ensures inInferno && !isShield && isZuk ==> !zukPresent && !timerPresent
      ensures !(inInferno && !isShield && isZuk) ==> zukPresent == old(zukPresent) && timerPresent == old(timerPresent)
      ensures !(inInferno && isShield) ==> shieldPresent == old(shieldPresent)
    {
      if !inInferno {
        return;
      }
      if isShield {
        shieldPresent := false;
        return;
      }
      if isZuk {
        zukPresent := false;
        timerPresent := false;
      }
      roster := WithoutNpc(roster, id);
    }

    /**
     * `onAnimationChanged` for an NPC: a nibbler playing its death
     * animation leaves the roster; with blob death locations on, a blob
     * playing `blobDeathAnimation` leaves the roster and its location is
     * remembered.
     */
    method OnAnimationChanged(inInferno: bool, cfg: Config, isNpc: bool, id: int, isNibblerId: bool, kind: Option<NpcType>,
                              animation: int, location: Tile, blobDeathAnimation: int)
      requires Valid()
      modifies this`roster, this`blobDeathSpots
      ensures Valid()
      ensures var blobDies := inInferno && isNpc && BlobDies(cfg, kind, animation, blobDeathAnimation);
        && roster == (if inInferno && isNpc && (NibblerDies(isNibblerId, animation) || blobDies) then WithoutNpc(old(roster), id) else old(roster))
        && blobDeathSpots == (if blobDies then old(blobDeathSpots) + [location] else old(blobDeathSpots))
    {
      if !inInferno || !isNpc {
        return;
      }
      // a second removal of the same NPC changes nothing (WithoutNpcTwice)
      if NibblerDies(isNibblerId, animation) || BlobDies(cfg, kind, animation, blobDeathAnimation) {
        roster := WithoutNpc(roster, id);
      }
      if BlobDies(cfg, kind, animation, blobDeathAnimation) {
        blobDeathSpots := blobDeathSpots + [location];
      }
    }

    /**
     * `onGameStateChanged` on login: outside the Inferno the roster is
     * emptied, the wave becomes unknown (−1) and the shield, Zuk and the
     * timer are forgotten; entering the Inferno with the wave unknown empties
     * the roster and starts at wave 1.
     */
    method OnGameStateChanged(loggedIn: bool, inInferno: bool)
      requires Valid()
      modifies this`roster, this`waveNumber, this`shieldPresent, this`zukPresent, this`timerPresent
      ensures Valid()
      ensures posted == old(posted) && tracker == old(tracker) && finalPhase == old(finalPhase)
      ensures loggedIn && !inInferno ==> roster == [] && waveNumber == -1 && !shieldPresent && !zukPresent && !timerPresent
      ensures loggedIn && inInferno && old(waveNumber) == -1 ==> roster == [] && waveNumber == 1
      ensures !loggedIn || (inInferno && old(waveNumber) != -1) ==> roster == old(roster) && waveNumber == old(waveNumber)
      ensures !(loggedIn && !inInferno) ==>
        shieldPresent == old(shieldPresent) && zukPresent == old(zukPresent) && timerPresent == old(timerPresent)
    {
      if !loggedIn {
        return;
      }
      if !inInferno {
        roster := [];
        waveNumber := -1;
        shieldPresent := false;
        zukPresent := false;
        timerPresent := false;
      } else if waveNumber == -1 {
        roster := [];
        waveNumber := 1;
      }
    }

    /** `onChatMessage`: a game message announcing a wave sets the wave number; nothing else changes it. */
    method OnChatMessage(inInferno: bool, isGameMessage: bool, message: string)
      requires Valid()
      modifies this`waveNumber
      ensures Valid()
      ensures posted == old(posted) && roster == old(roster)
      ensures waveNumber == if inInferno && isGameMessage && ParseWave(message).Some? then ParseWave(message).value else old(waveNumber)
    {
      if !inInferno || !isGameMessage {
        return;
      }
      var wave := ParseWave(message);
      if wave.Some? {
        waveNumber := wave.value;
      }
    }

    /**
     * `doPraying`: the text for the best prayer (see `PrayingText`) is
     * posted only when it differs from the last one posted.
     */
    method DoPraying(host: Host, cfg: Config, tickCount: int, jadPresent: bool)
      requires Valid()
      modifies this`posted, this`lastRecommended
      ensures Valid()
      ensures Recommends(host, cfg, attacksByTick, upcoming, jadPresent, tickCount, lastRecommended)
      ensures PostedOnChange(old(posted), old(lastRecommended), posted, lastRecommended)
    {
      var text: string;
      if !cfg.autoPray && !cfg.oneTickPray {
        text := "none";
        assert text == PC.PrayingText(cfg, None, tickCount);
      } else {
        var best := BestPrayer(host, cfg, attacksByTick, upcoming, jadPresent);
        text := PC.PrayingText(cfg, best, tickCount);
      }
      if lastRecommended != Some(text) {
        Post(text);
      }
    }

    /**
     * `calculateSafespots`: below wave 69 the grid scan around the player
     * (using the obstacles of the previous tick), unless safespots are off;
     * on wave 69 with the shield present the shield is observed and the
     * blocks behind it are stamped as the shield display mode of the
     * current phase says; otherwise the map stays empty.
     */
    method CalculateSafespots(host: Host, cfg: Config, player: Tile, shield: Tile)
      requires Valid()
      modifies this`safeSpots, this`tracker
      ensures Valid()
      ensures waveNumber == 69 && shieldPresent ==> tracker == ZS.Observe(old(tracker), shield)
      ensures !(waveNumber == 69 && shieldPresent) ==> tracker == old(tracker)
      ensures SafespotsOf(host, cfg, waveNumber, shieldPresent, finalPhase, roster, player, obstacles, tracker, shield, safeSpots)
    {
      if waveNumber < 69 {
        if cfg.safespotDisplayMode != SafespotsOff {
          safeSpots := SS.ScanSafespots(host, cfg, roster, player, obstacles);
        } else {
          safeSpots := map[];
        }
      } else if waveNumber == 69 && shieldPresent {
        tracker := ZS.Observe(tracker, shield);
        safeSpots := ZukSafespots(ShieldMode(cfg, finalPhase), tracker, shield, roster, finalPhase);
      } else {
        safeSpots := map[];
      }
    }

    /**
     * `onGameTick`, in the source's order: advance every monster and
     * rebuild the upcoming-attack window; regroup attacks by tick when the
     * attack-timer overlay or proactive detection is on; find the closest
     * attack; recommend a prayer; rebuild the safespots (from the previous
     * tick's obstacles) and their areas; rebuild the obstacles; find the
     * central nibbler; decide the spawn timer; count the final-phase tick.
     */
    method OnGameTick(inInferno: bool, host: Host, cfg: Config, tickCount: int, player: Tile, shield: Tile,
                      jadPresent: bool, zukRatio: int, zukScale: int, npcAreas: seq<seq<Tile>>,
                      areaDistance: (Npc, Npc) -> int, playerDistance: Npc -> int)
      requires Valid()
      modifies this`roster, this`upcoming, this`tracker, this`attacksByTick, this`simultaneous, this`closestAttack
      modifies this`posted, this`lastRecommended
      modifies this`safeSpots, this`safeSpotAreas, this`obstacles, this`centralNibbler
      modifies this`timerRunning, this`finalPhaseTick, this`ticksSinceFinalPhase
      ensures Valid()
      ensures !inInferno ==> unchanged(this)
      ensures inInferno ==>
        roster == TW.AdvanceAll(host, old(finalPhase), old(ticksSinceFinalPhase), old(roster), old(tracker.cornerTicks)).0 &&
        upcoming == TW.RecordAll(host, cfg, roster)
      ensures inInferno ==> (finalPhaseTick, ticksSinceFinalPhase) == CountTick(old(finalPhase), old(finalPhaseTick), old(ticksSinceFinalPhase))
      ensures inInferno && (cfg.showAttackTimerOverlay || cfg.proactiveThreatDetection) ==>
        GroupsOf(cfg, roster, attacksByTick) && MarkedOf(attacksByTick, cfg.simultaneousAttackThreshold, simultaneous)
      ensures inInferno && !(cfg.showAttackTimerOverlay || cfg.proactiveThreatDetection) ==>
        attacksByTick == old(attacksByTick) && simultaneous == old(simultaneous)
      ensures inInferno ==> ClosestFor(cfg.prayerDisplayMode, upcoming, closestAttack)
      ensures inInferno ==> Recommends(host, cfg, attacksByTick, upcoming, jadPresent, tickCount, lastRecommended)
      ensures inInferno ==> PostedOnChange(old(posted), old(lastRecommended), posted, lastRecommended)
      ensures inInferno ==> var advanced := old(tracker).(cornerTicks := TW.AdvanceAll(host, old(finalPhase), old(ticksSinceFinalPhase), old(roster), old(tracker.cornerTicks)).1);
        tracker == if waveNumber == 69 && shieldPresent then ZS.Observe(advanced, shield) else advanced
      ensures inInferno ==>
        SafespotsOf(host, cfg, waveNumber, shieldPresent, finalPhase, roster, player, old(obstacles), tracker, shield, safeSpots)
      ensures inInferno ==> AreasOf(cfg.safespotDisplayMode, safeSpotAreas, safeSpots)
      ensures inInferno ==> CoversAreas(obstacles, npcAreas)
      ensures inInferno ==> CentralOf(roster, areaDistance, playerDistance, centralNibbler)
      ensures inInferno ==>
        timerRunning == RunningAfter(old(timerRunning), SpawnTimerAction(zukPresent, finalPhase, timerPresent, old(timerRunning), zukRatio, zukScale))
    {
      if !inInferno {
        return;
      }
      TickInInferno(host, cfg, tickCount, player, shield, jadPresent, zukRatio, zukScale, npcAreas, areaDistance, playerDistance);
    }

    /** The tick inside the Inferno: the threat half, then the surroundings half. */
    method TickInInferno(host: Host, cfg: Config, tickCount: int, player: Tile, shield: Tile,
                        jadPresent: bool, zukRatio: int, zukScale: int, npcAreas: seq<seq<Tile>>,
                        areaDistance: (Npc, Npc) -> int, playerDistance: Npc -> int)
      requires Valid()
      modifies this`roster, this`upcoming, this`tracker, this`attacksByTick, this`simultaneous, this`closestAttack
      modifies this`posted, this`lastRecommended
      modifies this`safeSpots, this`safeSpotAreas, this`obstacles, this`centralNibbler
      modifies this`timerRunning, this`finalPhaseTick, this`ticksSinceFinalPhase
      ensures Valid()
      ensures roster == TW.AdvanceAll(host, old(finalPhase), old(ticksSinceFinalPhase), old(roster), old(tracker.cornerTicks)).0 &&
        upcoming == TW.RecordAll(host, cfg, roster)
      ensures (finalPhaseTick, ticksSinceFinalPhase) == CountTick(old(finalPhase), old(finalPhaseTick), old(ticksSinceFinalPhase))
      ensures cfg.showAttackTimerOverlay || cfg.proactiveThreatDetection ==>
        GroupsOf(cfg, roster, attacksByTick) && MarkedOf(attacksByTick, cfg.simultaneousAttackThreshold, simultaneous)
      ensures !(cfg.showAttackTimerOverlay || cfg.proactiveThreatDetection) ==>
        attacksByTick == old(attacksByTick) && simultaneous == old(simultaneous)
      ensures ClosestFor(cfg.prayerDisplayMode, upcoming, closestAttack)
      ensures Recommends(host, cfg, attacksByTick, upcoming, jadPresent, tickCount, lastRecommended)
      ensures PostedOnChange(old(posted), old(lastRecommended), posted, lastRecommended)
      ensures var advanced := old(tracker).(cornerTicks := TW.AdvanceAll(host, old(finalPhase), old(ticksSinceFinalPhase), old(roster), old(tracker.cornerTicks)).1);
        tracker == if waveNumber == 69 && shieldPresent then ZS.Observe(advanced, shield) else advanced
      ensures SafespotsOf(host, cfg, waveNumber, shieldPresent, finalPhase, roster, player, old(obstacles), tracker, shield, safeSpots)
      ensures AreasOf(cfg.safespotDisplayMode, safeSpotAreas, safeSpots)
      ensures CoversAreas(obstacles, npcAreas)
      ensures CentralOf(roster, areaDistance, playerDistance, centralNibbler)
      ensures timerRunning == RunningAfter(old(timerRunning), SpawnTimerAction(zukPresent, finalPhase, timerPresent, old(timerRunning), zukRatio, zukScale))
    {
      TickThreats(host, cfg, tickCount, jadPresent);
      TickSurroundings(host, cfg, player, shield, zukRatio, zukScale, npcAreas, areaDistance, playerDistance);
    }

    /** The first half of the tick: the monsters, the attack window, the closest attack and the recommendation. */
    method TickThreats(host: Host, cfg: Config, tickCount: int, jadPresent: bool)
      requires Valid()
      modifies this`roster, this`upcoming, this`tracker, this`attacksByTick, this`simultaneous, this`closestAttack
      modifies this`posted, this`lastRecommended
      ensures Valid()
      ensures (roster, tracker.cornerTicks) == TW.AdvanceAll(host, old(finalPhase), old(ticksSinceFinalPhase), old(roster), old(tracker.cornerTicks))
      ensures tracker == old(tracker).(cornerTicks := tracker.cornerTicks)
      ensures upcoming == TW.RecordAll(host, cfg, roster)
      ensures cfg.showAttackTimerOverlay || cfg.proactiveThreatDetection ==>
        GroupsOf(cfg, roster, attacksByTick) && MarkedOf(attacksByTick, cfg.simultaneousAttackThreshold, simultaneous)
      ensures !(cfg.showAttackTimerOverlay || cfg.proactiveThreatDetection) ==>
        attacksByTick == old(attacksByTick) && simultaneous == old(simultaneous)
      ensures ClosestFor(cfg.prayerDisplayMode, upcoming, closestAttack)
      ensures Recommends(host, cfg, attacksByTick, upcoming, jadPresent, tickCount, lastRecommended)
      ensures PostedOnChange(old(posted), old(lastRecommended), posted, lastRecommended)
    {
      AdvanceMonsters(host, cfg);
      label advanced:
      Regroup(cfg);
      label grouped:
      closestAttack := TW.ClosestAttack(cfg.prayerDisplayMode, upcoming);
      DoPraying(host, cfg, tickCount, jadPresent);
      assert unchanged@advanced(this`roster, this`upcoming, this`tracker);
      assert unchanged@grouped(this`attacksByTick, this`simultaneous);
    }

    /** `calculateUpcomingAttacks` on the engine's roster, threading the shield corner counter. */
    method AdvanceMonsters(host: Host, cfg: Config)
      requires Valid()
      modifies this`roster, this`upcoming, this`tracker
      ensures Valid()
      ensures (roster, tracker.cornerTicks) == TW.AdvanceAll(host, old(finalPhase), old(ticksSinceFinalPhase), old(roster), old(tracker.cornerTicks))
      ensures tracker == old(tracker).(cornerTicks := tracker.cornerTicks)
      ensures upcoming == TW.RecordAll(host, cfg, roster)
    {
      var before := tracker;
      TW.AdvanceAllCorner(host, finalPhase, ticksSinceFinalPhase, roster, before.cornerTicks);
      var newRoster, window, corner := TW.CalculateUpcomingAttacks(host, cfg, finalPhase, ticksSinceFinalPhase, roster, before.cornerTicks);
      var after := before.(cornerTicks := corner);
      assert ZS.Valid(after);
      roster, upcoming, tracker := newRoster, window, after;
    }

    /** `calculateEnhancedPrayerPriority`, run only when the attack-timer overlay or proactive detection is on. */
    method Regroup(cfg: Config)
      modifies this`attacksByTick, this`simultaneous
      ensures cfg.showAttackTimerOverlay || cfg.proactiveThreatDetection ==>
        GroupsOf(cfg, roster, attacksByTick) && MarkedOf(attacksByTick, cfg.simultaneousAttackThreshold, simultaneous)
      ensures !(cfg.showAttackTimerOverlay || cfg.proactiveThreatDetection) ==>
        attacksByTick == old(attacksByTick) && simultaneous == old(simultaneous)
    {
      if cfg.showAttackTimerOverlay || cfg.proactiveThreatDetection {
        attacksByTick := GroupAttacksByTick(cfg, roster);
        simultaneous := MarkSimultaneous(attacksByTick, cfg.simultaneousAttackThreshold);
      }
    }

    /** The second half of the tick: safespots and areas, obstacles, the central nibbler, the spawn timer and the final-phase count. */
    method TickSurroundings(host: Host, cfg: Config, player: Tile, shield: Tile, zukRatio: int, zukScale: int,
                            npcAreas: seq<seq<Tile>>, areaDistance: (Npc, Npc) -> int, playerDistance: Npc -> int)
      requires Valid()
      modifies this`safeSpots, this`tracker, this`safeSpotAreas, this`obstacles, this`centralNibbler
      modifies this`timerRunning, this`finalPhaseTick, this`ticksSinceFinalPhase
      ensures Valid()
      ensures unchanged(this`roster, this`upcoming, this`attacksByTick, this`simultaneous, this`closestAttack, this`posted, this`lastRecommended)
      ensures waveNumber == 69 && shieldPresent ==> tracker == ZS.Observe(old(tracker), shield)
      ensures !(waveNumber == 69 && shieldPresent) ==> tracker == old(tracker)
      ensures SafespotsOf(host, cfg, waveNumber, shieldPresent, finalPhase, roster, player, old(obstacles), tracker, shield, safeSpots)
      ensures AreasOf(cfg.safespotDisplayMode, safeSpotAreas, safeSpots)
      ensures CoversAreas(obstacles, npcAreas)
      ensures CentralOf(roster, areaDistance, playerDistance, centralNibbler)
      ensures timerRunning == RunningAfter(old(timerRunning), SpawnTimerAction(zukPresent, finalPhase, timerPresent, old(timerRunning), zukRatio, zukScale))
      ensures (finalPhaseTick, ticksSinceFinalPhase) == CountTick(finalPhase, old(finalPhaseTick), old(ticksSinceFinalPhase))
    {
      TickArea(host, cfg, player, shield, npcAreas);
      TickCounters(zukRatio, zukScale, areaDistance, playerDistance);
    }

    /** The safespots and their areas from the obstacles as they were, then the obstacles rebuilt. */
    method TickArea(host: Host, cfg: Config, player: Tile, shield: Tile, npcAreas: seq<seq<Tile>>)
      requires Valid()
      modifies this`safeSpots, this`tracker, this`safeSpotAreas, this`obstacles
      ensures Valid()
      ensures waveNumber == 69 && shieldPresent ==> tracker == ZS.Observe(old(tracker), shield)
      ensures !(waveNumber == 69 && shieldPresent) ==> tracker == old(tracker)
      ensures SafespotsOf(host, cfg, waveNumber, shieldPresent, finalPhase, roster, player, old(obstacles), tracker, shield, safeSpots)
      ensures AreasOf(cfg.safespotDisplayMode, safeSpotAreas, safeSpots)
      ensures CoversAreas(obstacles, npcAreas)
    {
      RebuildSafespots(host, cfg, player, shield);
      RebuildObstacles(npcAreas);
    }

    /** The central nibbler, the spawn timer and the final-phase count. */
    method TickCounters(zukRatio: int, zukScale: int, areaDistance: (Npc, Npc) -> int, playerDistance: Npc -> int)
      requires Valid()
      modifies this`centralNibbler, this`timerRunning, this`finalPhaseTick, this`ticksSinceFinalPhase
      ensures Valid()
      ensures CentralOf(roster, areaDistance, playerDistance, centralNibbler)
      ensures timerRunning == RunningAfter(old(timerRunning), SpawnTimerAction(zukPresent, finalPhase, timerPresent, old(timerRunning), zukRatio, zukScale))
      ensures (finalPhaseTick, ticksSinceFinalPhase) == CountTick(finalPhase, old(finalPhaseTick), old(ticksSinceFinalPhase))
    {
      FindCentralNibbler(areaDistance, playerDistance);
      DecideSpawnTimer(zukRatio, zukScale);
      CountFinalPhaseTick();
    }

    /** `calculateObstacles`: every tile of every NPC's area. */
    method RebuildObstacles(npcAreas: seq<seq<Tile>>)
      modifies this`obstacles
      ensures CoversAreas(obstacles, npcAreas)
    {
      obstacles := CollectObstacles(npcAreas);
    }

    /** `calculateSpawnTimerInfobox` on Zuk's health bar, see `SpawnTimerAction`. */
    method DecideSpawnTimer(zukRatio: int, zukScale: int)
      modifies this`timerRunning
      ensures timerRunning == RunningAfter(old(timerRunning), SpawnTimerAction(zukPresent, finalPhase, timerPresent, old(timerRunning), zukRatio, zukScale))
    {
      var action := SpawnTimerAction(zukPresent, finalPhase, timerPresent, timerRunning, zukRatio, zukScale);
      timerRunning := RunningAfter(timerRunning, action);
    }

    /** The counter at the end of `onGameTick`, see `CountTick`. */
    method CountFinalPhaseTick()
      requires Valid()
      modifies this`finalPhaseTick, this`ticksSinceFinalPhase
      ensures Valid()
      ensures (finalPhaseTick, ticksSinceFinalPhase) == CountTick(finalPhase, old(finalPhaseTick), old(ticksSinceFinalPhase))
    {
      var counted := CountTick(finalPhase, finalPhaseTick, ticksSinceFinalPhase);
      finalPhaseTick, ticksSinceFinalPhase := counted.0, counted.1;
    }

    /** `calculateSafespots` followed by `calculateSafespotAreas`, which groups the tiles by code only in the area display mode. */
    method RebuildSafespots(host: Host, cfg: Config, player: Tile, shield: Tile)
      requires Valid()
      modifies this`safeSpots, this`tracker, this`safeSpotAreas
      ensures Valid()
      ensures waveNumber == 69 && shieldPresent ==> tracker == ZS.Observe(old(tracker), shield)
      ensures !(waveNumber == 69 && shieldPresent) ==> tracker == old(tracker)
      ensures SafespotsOf(host, cfg, waveNumber, shieldPresent, finalPhase, roster, player, obstacles, tracker, shield, safeSpots)
      ensures AreasOf(cfg.safespotDisplayMode, safeSpotAreas, safeSpots)
    {
      CalculateSafespots(host, cfg, player, shield);
      GroupAreas(cfg);
    }

    /** `calculateSafespotAreas`: the safespot tiles grouped by code, only in the area display mode. */
    method GroupAreas(cfg: Config)
      modifies this`safeSpotAreas
      ensures AreasOf(cfg.safespotDisplayMode, safeSpotAreas, safeSpots)
    {
      if cfg.safespotDisplayMode == Area {
        safeSpotAreas := SS.GroupByCode(safeSpots);
      } else {
        safeSpotAreas := map[];
      }
    }

    /** `calculateCentralNibbler` on the engine's roster. */
    method FindCentralNibbler(areaDistance: (Npc, Npc) -> int, playerDistance: Npc -> int)
      modifies this`centralNibbler
      ensures CentralOf(roster, areaDistance, playerDistance, centralNibbler)
      ensures centralNibbler.Some? ==> centralNibbler.value in roster && centralNibbler.value.kind == Nibbler
    {
      var nibbler := CentralNibbler(roster, areaDistance, playerDistance);
      centralNibbler := if nibbler.Some? then Some(roster[nibbler.value]) else None;
      if nibbler.Some? {
        assert IsCentralAt(roster, areaDistance, playerDistance, nibbler.value);
      }
    }
  }

  /**
   * The `attacksByTick` map `calculateEnhancedPrayerPriority` builds: an
   * entry exactly for the ticks some prayer-helped monster of `roster`
   * attacks on, holding those monsters in roster order.
   */
  ghost predicate GroupsOf(cfg: Config, roster: seq<Npc>, byTick: map<int, seq<Npc>>)
  {
    (forall t {:trigger HasAttackerAt(cfg, roster, t)} :: t in byTick <==> HasAttackerAt(cfg, roster, t)) &&
    (forall t {:trigger AttackersAt(cfg, roster, t)} :: t in byTick ==> byTick[t] == AttackersAt(cfg, roster, t) && byTick[t] != [])
  }

  /** The monsters marked as attacking simultaneously: exactly the members `AddedFrom` some tick group of `byTick`. */
  ghost predicate MarkedOf(byTick: map<int, seq<Npc>>, threshold: int, marked: set<Npc>)
  {
    forall n :: n in marked <==> exists t :: t in byTick && AddedFrom(byTick, threshold, t, n)
  }

  /** A closest attack, when there is one, is the smallest (tick, priority) of the window. */
  ghost predicate ClosestOf(upcoming: TW.Upcoming, closest: Option<Attack>)
  {
    closest.Some? ==> exists t :: TW.IsClosest(upcoming, t, closest.value)
  }

  /** The closest attack `calculateClosestAttack` leaves: none in the bottom display mode, otherwise one exactly when the window has a candidate, and then the smallest. */
  ghost predicate ClosestFor(mode: PrayerDisplayMode, upcoming: TW.Upcoming, closest: Option<Attack>)
  {
    (mode == Bottom ==> closest == None) &&
    (mode != Bottom ==> (closest.Some? <==> TW.HasCandidate(upcoming))) &&
    ClosestOf(upcoming, closest)
  }

  /**
   * The recommendation `doPraying` leaves: "none" with both praying options
   * off; otherwise the text `PrayingText` makes of a prayer `BestChoice`
   * allows.
   */
  ghost predicate Recommends(host: Host, cfg: Config, byTick: map<int, seq<Npc>>, upcoming: TW.Upcoming, jadPresent: bool,
                             tickCount: int, last: Option<string>)
  {
    (!cfg.autoPray && !cfg.oneTickPray ==> last == Some("none")) &&
    (cfg.autoPray || cfg.oneTickPray ==> exists best ::
      BestChoice(host, cfg, byTick, upcoming, jadPresent, best) && last == Some(PC.PrayingText(cfg, best, tickCount)))
  }

  /** A recommendation is posted exactly when it differs from the one before, and then it is appended. */
  ghost predicate PostedOnChange(before: seq<string>, lastBefore: Option<string>, posted: seq<string>, last: Option<string>)
  {
    last.Some? && posted == if last == lastBefore then before else before + [last.value]
  }

  /**
   * The areas `calculateSafespotAreas` leaves: none outside the area display
   * mode; in it, the safespot map inverted into code -> tiles, every group
   * non-empty.
   */
  ghost predicate AreasOf(mode: SafespotDisplayMode, areas: map<int, set<Tile>>, spots: map<Tile, int>)
  {
    (mode != Area ==> areas == map[]) &&
    (mode == Area ==>
      (forall tile: Tile :: tile in spots ==> spots[tile] in areas && tile in areas[spots[tile]]) &&
      (forall c, tile :: c in areas && tile in areas[c] ==> tile in spots && spots[tile] == c) &&
      (forall c :: c in areas ==> areas[c] != {}))
  }

  /** A nibbler playing its death animation. */
  predicate NibblerDies(isNibblerId: bool, animation: int)
  {
    isNibblerId && animation == NibblerDeathAnimation
  }

  /** With blob death locations on, a blob playing the blob death animation. */
  predicate BlobDies(cfg: Config, kind: Option<NpcType>, animation: int, blobDeathAnimation: int)
  {
    cfg.indicateBlobDeathLocation && kind == Some(Blob) && animation == blobDeathAnimation
  }

  /** `isClickedTile`: a click selects the tile at its two world coordinates. */
  predicate IsClickedTile(tile: Tile, param0: int, param1: int)
  {
    tile.x == param0 && tile.y == param1
  }
}
