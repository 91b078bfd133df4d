/**
 * Choosing a protection prayer: the heaviest-damage style among a group of
 * attackers, the style preferred on a safespot tile that two styles reach,
 * the most urgent attack landing next tick, and the recommendation text
 * posted to the companion prayer plugin.
 */
module PrayerChoice {
  import opened InfernoTypes
  import opened Settings
  import opened ThreatWindow

  /** The prayer that protects from an attack style. */
  function Protection(a: Attack): (p: Prayer)
    requires a != Unknown
    ensures a == Melee <==> p == ProtectFromMelee
    ensures a == Ranged <==> p == ProtectFromMissiles
  {
    match a
    case Melee => ProtectFromMelee
    case Ranged => ProtectFromMissiles
    case Magic => ProtectFromMagic
  }

  /** Approximate maximum hit per monster type, used to weigh simultaneous threats. */
  function MaxDamage(k: NpcType): (d: int)
    ensures 15 <= d <= 120
  {
    match k
    case Jad => 97
    case Zuk => 120
    case Mage => 45
    case Ranger => 40
    case Meleer => 35
    case Bat => 15
    case Blob => 20
    case _ => 30
  }

  /** The summed maximum damage of the monsters of `rs` whose style, as `styleOf` reads it, is `a`. */
  function DamageOn(rs: seq<Npc>, a: Attack, styleOf: Npc -> Attack): int
  {
    if |rs| == 0 then 0
    else DamageOn(rs[..|rs| - 1], a, styleOf) + (if styleOf(rs[|rs| - 1]) == a then MaxDamage(rs[|rs| - 1].kind) else 0)
  }

  /** The damage a prayer blocks, given the damage per style. */
  function Blocked(p: Prayer, melee: int, ranged: int, magic: int): int
  {
    match p
    case ProtectFromMelee => melee
    case ProtectFromMissiles => ranged
    case ProtectFromMagic => magic
  }

  /**
   * The prayer blocking the most damage; on a tie melee is preferred to
   * ranged and ranged to magic.
   */
  function PickByDamage(melee: int, ranged: int, magic: int): (p: Prayer)
    ensures Blocked(p, melee, ranged, magic) >= melee
    ensures Blocked(p, melee, ranged, magic) >= ranged
    ensures Blocked(p, melee, ranged, magic) >= magic
    ensures p == ProtectFromMissiles ==> ranged > melee
    ensures p == ProtectFromMagic ==> magic > melee && magic > ranged
  {
    if melee >= ranged && melee >= magic then ProtectFromMelee
    else if ranged >= magic then ProtectFromMissiles
    else ProtectFromMagic
  }

  /**
   * `calculateCombinedThreatPrayer` and `calculateEmergencyPrayer`: sum the
   * maximum damage per style over the attackers and pick the prayer that
   * blocks the most; no prayer for no attackers.
   */
  method HeaviestPrayer(attackers: seq<Npc>, styleOf: Npc -> Attack) returns (p: Option<Prayer>)
    ensures p.None? <==> |attackers| == 0
    ensures p.Some? ==> p.value == PickByDamage(
      DamageOn(attackers, Melee, styleOf), DamageOn(attackers, Ranged, styleOf), DamageOn(attackers, Magic, styleOf))
  {
    if |attackers| == 0 {
      return None;
    }
    var melee, ranged, magic := 0, 0, 0;
    var i := 0;
    while i < |attackers|
      invariant 0 <= i <= |attackers|
      invariant melee == DamageOn(attackers[..i], Melee, styleOf)
      invariant ranged == DamageOn(attackers[..i], Ranged, styleOf)
      invariant magic == DamageOn(attackers[..i], Magic, styleOf)
    {
      assert attackers[..i + 1][..i] == attackers[..i];
      var damage := MaxDamage(attackers[i].kind);
      match styleOf(attackers[i]) {
        case Melee => melee := melee + damage;
        case Ranged => ranged := ranged + damage;
        case Magic => magic := magic + damage;
        case Unknown =>
      }
      i := i + 1;
    }
    assert attackers[..|attackers|] == attackers;
    if melee >= ranged && melee >= magic {
      p := Some(ProtectFromMelee);
    } else if ranged >= magic {
      p := Some(ProtectFromMissiles);
    } else {
      p := Some(ProtectFromMagic);
    }
  }

  /** Damage of a style nobody uses is zero; damage of a style everybody uses is positive. */
  lemma {:induction false} DamageOnUniform(rs: seq<Npc>, a: Attack, b: Attack, styleOf: Npc -> Attack)
    requires forall i :: 0 <= i < |rs| ==> styleOf(rs[i]) == a
    ensures b != a ==> DamageOn(rs, b, styleOf) == 0
    ensures b == a && |rs| > 0 ==> DamageOn(rs, b, styleOf) > 0
  {
    if |rs| > 0 {
      DamageOnUniform(rs[..|rs| - 1], a, b, styleOf);
    }
  }

  /** When every attacker uses the same style, its protection prayer is chosen. */
  lemma UniformStylePicksIt(rs: seq<Npc>, a: Attack, styleOf: Npc -> Attack)
    requires a != Unknown && |rs| > 0
    requires forall i :: 0 <= i < |rs| ==> styleOf(rs[i]) == a
    ensures PickByDamage(DamageOn(rs, Melee, styleOf), DamageOn(rs, Ranged, styleOf), DamageOn(rs, Magic, styleOf)) == Protection(a)
  {
    DamageOnUniform(rs, a, Melee, styleOf);
    DamageOnUniform(rs, a, Ranged, styleOf);
    DamageOnUniform(rs, a, Magic, styleOf);
  }

  /** Whether the click handler weighs a monster at all: prayer-helped and alive. */
  predicate AliveAndHelped(host: Host, cfg: Config, n: Npc)
  {
    IsPrayerHelper(cfg, n.kind) && !host.isDead(n.id)
  }

  /** A monster counts as a threat of style `a` for the click handler: helped, alive, and attacking with `a` by default. */
  predicate IsThreat(host: Host, cfg: Config, n: Npc, a: Attack)
  {
    AliveAndHelped(host, cfg, n) && host.defaultAttack(n.kind) == a
  }

  ghost predicate HasThreat(host: Host, cfg: Config, rs: seq<Npc>, a: Attack)
  {
    exists i :: 0 <= i < |rs| && IsThreat(host, cfg, rs[i], a)
  }

  /** Some threat of style `a` attacks no later than every threat of style `b`. */
  ghost predicate NoLaterThan(host: Host, cfg: Config, rs: seq<Npc>, a: Attack, b: Attack)
  {
    exists i :: 0 <= i < |rs| && IsThreat(host, cfg, rs[i], a) &&
      forall j :: 0 <= j < |rs| && IsThreat(host, cfg, rs[j], b) ==> rs[i].ticks <= rs[j].ticks
  }

  /** The smallest ticks-till-attack among the threats of style `a`, if any. */
  function MinThreatTicks(host: Host, cfg: Config, rs: seq<Npc>, a: Attack): Option<int>
  {
    if |rs| == 0 then None
    else
      var m := MinThreatTicks(host, cfg, rs[..|rs| - 1], a);
      var n := rs[|rs| - 1];
      if !IsThreat(host, cfg, n, a) then m
      else if m.Some? && m.value <= n.ticks then m
      else Some(n.ticks)
  }

  lemma {:induction false} MinThreatTicksIsMin(host: Host, cfg: Config, rs: seq<Npc>, a: Attack)
    ensures MinThreatTicks(host, cfg, rs, a).None? <==> !HasThreat(host, cfg, rs, a)
    ensures MinThreatTicks(host, cfg, rs, a).Some? ==>
      (exists i :: 0 <= i < |rs| && IsThreat(host, cfg, rs[i], a) && rs[i].ticks == MinThreatTicks(host, cfg, rs, a).value) &&
      (forall j :: 0 <= j < |rs| && IsThreat(host, cfg, rs[j], a) ==> MinThreatTicks(host, cfg, rs, a).value <= rs[j].ticks)
  {
    if |rs| > 0 {
      var pre := rs[..|rs| - 1];
      MinThreatTicksIsMin(host, cfg, pre, a);
      var m := MinThreatTicks(host, cfg, pre, a);
      assert forall j :: 0 <= j < |pre| ==> rs[j] == pre[j];
      if m.Some? {
        var i :| 0 <= i < |pre| && IsThreat(host, cfg, pre[i], a) && pre[i].ticks == m.value;
        assert rs[i] == pre[i];
      }
      if HasThreat(host, cfg, rs, a) && !IsThreat(host, cfg, rs[|rs| - 1], a) {
        var i :| 0 <= i < |rs| && IsThreat(host, cfg, rs[i], a);
        assert i < |pre| && IsThreat(host, cfg, pre[i], a);
      }
    }
  }

  /** Comparing the two minima decides which style has the earliest threat. */
  lemma EarlierMinimum(host: Host, cfg: Config, rs: seq<Npc>, a: Attack, b: Attack)
    requires MinThreatTicks(host, cfg, rs, a).Some? && MinThreatTicks(host, cfg, rs, b).Some?
    ensures MinThreatTicks(host, cfg, rs, a).value <= MinThreatTicks(host, cfg, rs, b).value <==> NoLaterThan(host, cfg, rs, a, b)
  {
    MinThreatTicksIsMin(host, cfg, rs, a);
    MinThreatTicksIsMin(host, cfg, rs, b);
    var ma, mb := MinThreatTicks(host, cfg, rs, a).value, MinThreatTicks(host, cfg, rs, b).value;
    if NoLaterThan(host, cfg, rs, a, b) {
      var k :| 0 <= k < |rs| && IsThreat(host, cfg, rs[k], a) &&
        forall j :: 0 <= j < |rs| && IsThreat(host, cfg, rs[j], b) ==> rs[k].ticks <= rs[j].ticks;
      var j :| 0 <= j < |rs| && IsThreat(host, cfg, rs[j], b) && rs[j].ticks == mb;
      assert ma <= rs[k].ticks <= rs[j].ticks;
    } else {
      var k :| 0 <= k < |rs| && IsThreat(host, cfg, rs[k], a) && rs[k].ticks == ma;
      assert !(forall j :: 0 <= j < |rs| && IsThreat(host, cfg, rs[j], b) ==> rs[k].ticks <= rs[j].ticks);
    }
  }

  /**
   * The prayer a tile two styles reach calls for: with threats of both
   * styles, the first style's prayer exactly when its earliest threat
   * attacks no later than the second's, and otherwise the second's; with
   * threats of one style only, that style's prayer; with none, the
   * fallback's.
   */
  ghost predicate PairChoice(host: Host, cfg: Config, roster: seq<Npc>, first: Attack, second: Attack, fallback: Attack, p: Prayer)
    requires first != Unknown && second != Unknown && fallback != Unknown
  {
    (HasThreat(host, cfg, roster, first) && HasThreat(host, cfg, roster, second) ==>
      (p == Protection(first) || p == Protection(second)) &&
      (p == Protection(first) <==> NoLaterThan(host, cfg, roster, first, second))) &&
    (HasThreat(host, cfg, roster, first) && !HasThreat(host, cfg, roster, second) ==> p == Protection(first)) &&
    (!HasThreat(host, cfg, roster, first) && HasThreat(host, cfg, roster, second) ==> p == Protection(second)) &&
    (!HasThreat(host, cfg, roster, first) && !HasThreat(host, cfg, roster, second) ==> p == Protection(fallback))
  }

  /**
   * `getPriorityPrayerForMeleeRange`, `…MeleeMagic` and `…RangeMagic`: on a
   * tile two styles reach, protect from the style whose earliest threat
   * attacks first (the first style on a tie); with threats of one style
   * only, protect from it; with none, protect from the fallback style.
   */
  method PairPrayer(host: Host, cfg: Config, roster: seq<Npc>, first: Attack, second: Attack, fallback: Attack)
    returns (p: Prayer)
    requires first != Unknown && second != Unknown && fallback != Unknown && first != second
    ensures PairChoice(host, cfg, roster, first, second, fallback, p)
  {
    var minFirst: Option<int> := None;
    var minSecond: Option<int> := None;
    var i := 0;
    while i < |roster|
      invariant 0 <= i <= |roster|
      invariant minFirst == MinThreatTicks(host, cfg, roster[..i], first)
      invariant minSecond == MinThreatTicks(host, cfg, roster[..i], second)
    {
      assert roster[..i + 1][..i] == roster[..i];
      var n := roster[i];
      if AliveAndHelped(host, cfg, n) {
        if host.defaultAttack(n.kind) == first {
          if minFirst.None? || n.ticks < minFirst.value {
            minFirst := Some(n.ticks);
          }
        } else if host.defaultAttack(n.kind) == second {
          if minSecond.None? || n.ticks < minSecond.value {
            minSecond := Some(n.ticks);
          }
        }
      }
      i := i + 1;
    }
    assert roster[..|roster|] == roster;
    MinThreatTicksIsMin(host, cfg, roster, first);
    MinThreatTicksIsMin(host, cfg, roster, second);
    if minFirst.Some? && minSecond.Some? {
      EarlierMinimum(host, cfg, roster, first, second);
      p := if minFirst.value <= minSecond.value then Protection(first) else Protection(second);
    } else if minFirst.Some? {
      p := Protection(first);
    } else if minSecond.Some? {
      p := Protection(second);
    } else {
      p := Protection(fallback);
    }
  }

  /** The styles that reach a tile with a given safespot code (0 safe, 7 all three). */
  function CodeStyles(code: int): set<Attack>
  {
    match code
    case 1 => {Melee}
    case 2 => {Ranged}
    case 3 => {Magic}
    case 4 => {Melee, Ranged}
    case 5 => {Melee, Magic}
    case 6 => {Ranged, Magic}
    case 7 => {Melee, Ranged, Magic}
    case _ => {}
  }

  /** The alive, helped monsters, in roster order: the attackers considered on a tile all three styles reach. */
  function AliveHelped(host: Host, cfg: Config, rs: seq<Npc>): (r: seq<Npc>)
    ensures |r| <= |rs|
    ensures forall n :: n in r <==> n in rs && AliveAndHelped(host, cfg, n)
  {
    if |rs| == 0 then []
    else
      var n := rs[|rs| - 1];
      AliveHelped(host, cfg, rs[..|rs| - 1]) + (if AliveAndHelped(host, cfg, n) then [n] else [])
  }

  /** The filter keeps roster order: filtering a concatenation concatenates the filtered parts. */
  lemma {:induction false} AliveHelpedAppend(host: Host, cfg: Config, rs: seq<Npc>, ts: seq<Npc>)
    ensures AliveHelped(host, cfg, rs + ts) == AliveHelped(host, cfg, rs) + AliveHelped(host, cfg, ts)
  {
    if |ts| > 0 {
      var pre := ts[..|ts| - 1];
      AliveHelpedAppend(host, cfg, rs, pre);
      assert (rs + ts)[..|rs + ts| - 1] == rs + pre;
      assert (rs + ts)[|rs + ts| - 1] == ts[|ts| - 1];
    } else {
      assert rs + ts == rs;
    }
  }

  /** Every monster's default attack style: how the click handler reads a threat's style. */
  function DefaultStyle(host: Host): Npc -> Attack
  {
    (n: Npc) => host.defaultAttack(n.kind)
  }

  /**
   * `getPriorityPrayerForAllThreats`: the prayer blocking the most summed
   * damage over the alive helped monsters by their default styles, or magic
   * when there are none.
   */
  function AllThreatsPrayer(host: Host, cfg: Config, roster: seq<Npc>): Prayer
  {
    var attackers := AliveHelped(host, cfg, roster);
    if |attackers| == 0 then ProtectFromMagic
    else PickByDamage(DamageOn(attackers, Melee, DefaultStyle(host)), DamageOn(attackers, Ranged, DefaultStyle(host)),
                      DamageOn(attackers, Magic, DefaultStyle(host)))
  }

  /**
   * The prayer a click on a tile with safespot code `code` calls for: none
   * outside codes 1 to 7; the one style's prayer on codes 1 to 3; the pair
   * choice on codes 4 (melee and ranged, falling back to melee), 5 (melee
   * and magic, falling back to magic) and 6 (ranged and magic, falling back
   * to magic); the all-threats prayer on code 7.
   */
  ghost predicate SafespotPrayer(host: Host, cfg: Config, roster: seq<Npc>, code: int, p: Option<Prayer>)
  {
    (p.None? <==> !(1 <= code <= 7)) &&
    (code == 1 ==> p == Some(ProtectFromMelee)) &&
    (code == 2 ==> p == Some(ProtectFromMissiles)) &&
    (code == 3 ==> p == Some(ProtectFromMagic)) &&
    (code == 4 ==> p.Some? && PairChoice(host, cfg, roster, Melee, Ranged, Melee, p.value)) &&
    (code == 5 ==> p.Some? && PairChoice(host, cfg, roster, Melee, Magic, Magic, p.value)) &&
    (code == 6 ==> p.Some? && PairChoice(host, cfg, roster, Ranged, Magic, Magic, p.value)) &&
    (code == 7 ==> p == Some(AllThreatsPrayer(host, cfg, roster)))
  }

  /** The pair choice decides the prayer: two prayers meeting it are the same. */
  lemma PairChoiceUnique(host: Host, cfg: Config, roster: seq<Npc>, first: Attack, second: Attack, fallback: Attack, p: Prayer, q: Prayer)
    requires first != Unknown && second != Unknown && fallback != Unknown && first != second
    requires PairChoice(host, cfg, roster, first, second, fallback, p)
    requires PairChoice(host, cfg, roster, first, second, fallback, q)
    ensures p == q
  {
    if HasThreat(host, cfg, roster, first) && HasThreat(host, cfg, roster, second) {
      assert Protection(first) != Protection(second) by {
        ProtectionInjective(first, second);
      }
    }
  }

  /** Distinct styles are protected by distinct prayers. */
  lemma ProtectionInjective(a: Attack, b: Attack)
    requires a != Unknown && b != Unknown && a != b
    ensures Protection(a) != Protection(b)
  {
  }

  /** A tile's code decides the clicked prayer: two prayers meeting `SafespotPrayer` are the same. */
  lemma SafespotPrayerUnique(host: Host, cfg: Config, roster: seq<Npc>, code: int, p: Option<Prayer>, q: Option<Prayer>)
    requires SafespotPrayer(host, cfg, roster, code, p) && SafespotPrayer(host, cfg, roster, code, q)
    ensures p == q
  {
    if code == 4 {
      PairChoiceUnique(host, cfg, roster, Melee, Ranged, Melee, p.value, q.value);
    } else if code == 5 {
      PairChoiceUnique(host, cfg, roster, Melee, Magic, Magic, p.value, q.value);
    } else if code == 6 {
      PairChoiceUnique(host, cfg, roster, Ranged, Magic, Magic, p.value, q.value);
    }
  }

  /** The clicked prayer always protects from a style that reaches the tile. */
  lemma SafespotPrayerReaches(host: Host, cfg: Config, roster: seq<Npc>, code: int, p: Option<Prayer>)
    requires SafespotPrayer(host, cfg, roster, code, p) && p.Some?
    ensures exists a :: a in CodeStyles(code) && a != Unknown && p.value == Protection(a)
  {
    var a: Attack;
    if code == 1 { a := Melee; }
    else if code == 2 { a := Ranged; }
    else if code == 3 || (code != 7 && p.value == ProtectFromMagic) { a := Magic; }
    else if p.value == ProtectFromMelee { a := Melee; }
    else if p.value == ProtectFromMissiles { a := Ranged; }
    else { a := Magic; }
    assert a in CodeStyles(code) && p.value == Protection(a);
  }

  /**
   * `getPrayerForSafespotValue`: the prayer recommended when the player walks
   * to a tile with safespot code `code`, as `SafespotPrayer` describes it.
   */
  method PrayerForSafespotValue(host: Host, cfg: Config, roster: seq<Npc>, code: int) returns (p: Option<Prayer>)
    ensures SafespotPrayer(host, cfg, roster, code, p)
  {
    match code {
      case 1 => p := Some(ProtectFromMelee);
      case 2 => p := Some(ProtectFromMissiles);
      case 3 => p := Some(ProtectFromMagic);
      case 4 =>
        var q := PairPrayer(host, cfg, roster, Melee, Ranged, Melee);
        p := Some(q);
      case 5 =>
        var q := PairPrayer(host, cfg, roster, Melee, Magic, Magic);
        p := Some(q);
      case 6 =>
        var q := PairPrayer(host, cfg, roster, Ranged, Magic, Magic);
        p := Some(q);
      case 7 =>
        var e := HeaviestPrayer(AliveHelped(host, cfg, roster), DefaultStyle(host));
        p := if e.Some? then e else Some(ProtectFromMagic);
      case _ => p := None;
    }
  }

  /**
   * The most urgent attack landing next tick: among the kinds on tick 1, the
   * one with the smallest priority below `Integer.MAX_VALUE`. Kinds are
   * visited in no fixed order; on a tie the first visited wins.
   */
  method BestAttackNextTick(m: Upcoming) returns (best: Option<Attack>)
    ensures best.None? <==> (1 !in m || forall a :: a in m[1] ==> m[1][a] >= INT_MAX)
    ensures best.Some? ==> 1 in m && best.value in m[1] && m[1][best.value] < INT_MAX
    ensures best.Some? ==> forall a :: a in m[1] ==> m[1][best.value] <= m[1][a]
  {
    best := None;
    if 1 !in m {
      return;
    }
    var attacks := m[1];
    var bestPriority := INT_MAX;
    var left := attacks.Keys;
    while left != {}
      invariant left <= attacks.Keys
      invariant best.None? ==> bestPriority == INT_MAX
      invariant best.Some? ==> best.value in attacks && attacks[best.value] == bestPriority && bestPriority < INT_MAX
      invariant forall a :: a in attacks && a !in left ==> bestPriority <= attacks[a]
      decreases |left|
    {
      var a :| a in left;
      if attacks[a] < bestPriority {
        best := Some(a);
        bestPriority := attacks[a];
      }
      left := left - {a};
    }
  }

  /** `toRecommendationString`: the text posted for a prayer, "none" for no prayer. */
  function RecommendationText(p: Option<Prayer>): (r: string)
    ensures r == "none" <==> p.None?
  {
    match p
    case None => "none"
    case Some(ProtectFromMagic) => "protect_from_magic"
    case Some(ProtectFromMissiles) => "protect_from_missiles"
    case Some(ProtectFromMelee) => "protect_from_melee"
  }

  /** Reading a recommendation text back: the prayer it names, if any. */
  function ParseRecommendation(s: string): Option<Prayer>
  {
    if s == "protect_from_magic" then Some(ProtectFromMagic)
    else if s == "protect_from_missiles" then Some(ProtectFromMissiles)
    else if s == "protect_from_melee" then Some(ProtectFromMelee)
    else None
  }

  /** The recommendation text names exactly the prayer it was made from, so distinct prayers give distinct texts. */
  lemma RecommendationRoundTrip(p: Option<Prayer>)
    ensures ParseRecommendation(RecommendationText(p)) == p
    ensures RecommendationText(p) == "none" <==> p.None?
  {
  }

  /**
   * The text `doPraying` settles on: "none" when neither automatic nor
   * one-tick praying is on; otherwise the best prayer's text, which one-tick
   * praying replaces with "none" on odd game ticks.
   */
  function PrayingText(cfg: Config, best: Option<Prayer>, tickCount: int): (s: string)
    ensures !cfg.autoPray && !cfg.oneTickPray ==> s == "none"
    ensures cfg.oneTickPray && tickCount % 2 == 1 ==> s == "none"
    ensures (cfg.autoPray || cfg.oneTickPray) && (!cfg.oneTickPray || tickCount % 2 == 0) ==> ParseRecommendation(s) == best
  {
    if !cfg.autoPray && !cfg.oneTickPray then "none"
    else if cfg.oneTickPray && tickCount % 2 != 0 then "none"
    else RecommendationText(best)
  }
}
