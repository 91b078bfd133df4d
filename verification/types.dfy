/**
 * The vocabulary shared by the Inferno helper: monster types, attack kinds,
 * protection prayers, tiles, the roster record of one tracked monster, the
 * read-only settings object and the facts the game host answers on request.
 */
module InfernoTypes {

  datatype Option<+T> = None | Some(value: T)

  /** The monster types the plugin recognises (`InfernoNPC.Type`). */
  datatype NpcType =
    | Bat | Blob | Meleer | Ranger | Mage | Jad
    | Nibbler | HealerJad | HealerZuk | Zuk

  /** The predicted kind of a monster's next attack (`InfernoNPC.Attack`). */
  datatype Attack = Melee | Ranged | Magic | Unknown

  /** The three protection prayers. */
  datatype Prayer = ProtectFromMelee | ProtectFromMissiles | ProtectFromMagic

  /** A world tile; the plane is left out (every tile of the model is on the player's plane). */
  datatype Tile = Tile(x: int, y: int)

  /**
   * One roster entry. `id` stands for the identity of the game NPC the entry
   * wraps; `ticks` is ticks-till-next-attack (−1 marks a suspended timer) and
   * `attack` the predicted kind of the next attack.
   */
  datatype Npc = Npc(id: int, kind: NpcType, ticks: int, attack: Attack)

  /** What one advance of a monster's attack clock yields. */
  datatype Clock = Clock(ticks: int, attack: Attack)

  /** One boolean per monster type, as the settings object groups its per-type toggles. */
  datatype TypeToggles = TypeToggles(
    bat: bool, blob: bool, meleer: bool, ranger: bool, mage: bool,
    healerJad: bool, jad: bool, zuk: bool)

  datatype PrayerDisplayMode = PrayerTab | Bottom | Both
  datatype SafespotDisplayMode = SafespotsOff | IndividualTiles | Area
  datatype ShieldDisplayMode = ShieldOff | Live | Predict | LivePlusPredict

  /** The read-only settings the engine consults. */
  datatype Config = Config(
    prayer: TypeToggles,
    safespots: TypeToggles,
    ticksOnNpc: TypeToggles,
    npcPosition: TypeToggles,
    indicateBlobDetectionTick: bool,
    prayerDisplayMode: PrayerDisplayMode,
    safespotDisplayMode: SafespotDisplayMode,
    safespotsCheckSize: int,
    shieldBeforeHealers: ShieldDisplayMode,
    shieldAfterHealers: ShieldDisplayMode,
    autoPray: bool,
    oneTickPray: bool,
    showAttackTimerOverlay: bool,
    proactiveThreatDetection: bool,
    offTickMeleeJad: bool,
    simultaneousAttackThreshold: int,
    spawnTimerInfobox: bool,
    indicateBlobDeathLocation: bool)

  /**
   * Facts the engine only queries from the game host or from the monster
   * wrapper whose code is not part of this model. They are uninterpreted:
   * nothing is assumed about them beyond their types.
   */
  datatype Host = Host(
    isDead: int -> bool,
    canAttack: (Npc, Tile) -> bool,
    canMoveToAttack: (Npc, Tile, seq<Tile>) -> bool,
    inMeleeDistance: (Npc, Tile) -> bool,
    priority: NpcType -> int,
    defaultAttack: NpcType -> Attack,
    prayerOf: Attack -> Option<Prayer>,
    clock: (Npc, bool, int) -> Clock)

  /** A non-empty set has a member (used before picking an arbitrary element of a key set). */
  lemma NonEmptyHasMember<T>(s: set<T>)
    requires s != {}
    ensures exists x :: x in s
  {
    if forall y :: y !in s {
      assert false;
    }
  }

  /** The same for a set of ints, whose members the verifier does not box. */
  lemma NonEmptyHasInt(s: set<int>)
    requires s != {}
    ensures exists x: int :: x in s
  {
    if forall y :: y !in s {
      assert false;
    }
  }

  const INT_MAX: int := 0x7fff_ffff

  function Min(a: int, b: int): int { if a <= b then a else b }

  /** Java's `/` on int: the quotient is truncated toward zero. */
  function JavaDiv(a: int, b: int): (q: int)
    requires b != 0
    ensures a >= 0 && b > 0 ==> q == a / b
    ensures b > 0 ==> (if a >= 0 then q * b <= a else q * b >= a)
  {
    if (a >= 0) == (b > 0) then
      (if a >= 0 then a / b else (-a) / (-b))
    else
      -(if a >= 0 then a / (-b) else (-a) / b)
  }

  /** `x <= y` carries over to the products with a non-negative factor. */
  lemma MulMono(x: int, y: int, b: int)
    requires b >= 0
    ensures x <= y ==> x * b <= y * b
  {
  }

  /** Bounds on a quotient from bounds on the dividend. */
  lemma DivBetween(a: int, b: int, lo: int, hi: int)
    requires b > 0 && lo * b <= a < (hi + 1) * b
    ensures lo <= a / b <= hi
  {
    var q := a / b;
    assert q * b <= a < q * b + b;
    MulMono(q + 1, lo, b);
    MulMono(hi + 1, q, b);
    assert (q + 1) * b == q * b + b;
  }

  /** A multiple of a positive `g` is divided by it exactly. */
  lemma MultipleMod(m: int, g: int)
    requires g > 0
    ensures (m * g) / g == m && (m * g) % g == 0
  {
    MulMono(m, m, g);
    assert (m + 1) * g == m * g + g;
    DivBetween(m * g, g, m, m);
  }
}
