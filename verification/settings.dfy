/**
 * The per-type settings lookups: whether a monster type takes part in the
 * prayer helper, in the safespot scan, in the tick counters drawn on the
 * monster, and in the position indicator. Each lookup covers a fixed set of
 * types; every other type is off whatever the settings say.
 */
module Settings {
  import opened InfernoTypes

  /** The toggle a per-type settings group holds for `k`; Nibblers and Zuk's healers have none. */
  function Toggle(t: TypeToggles, k: NpcType): Option<bool>
  {
    match k
    case Bat => Some(t.bat)
    case Blob => Some(t.blob)
    case Meleer => Some(t.meleer)
    case Ranger => Some(t.ranger)
    case Mage => Some(t.mage)
    case HealerJad => Some(t.healerJad)
    case Jad => Some(t.jad)
    case Zuk => Some(t.zuk)
    case Nibbler => None
    case HealerZuk => None
  }

  /** The five wave monsters. */
  const WaveTypes: set<NpcType> := {Bat, Blob, Meleer, Ranger, Mage}

  /** The wave monsters plus Jad and Jad's healers. */
  const HelperTypes: set<NpcType> := WaveTypes + {HealerJad, Jad}

  /** `isPrayerHelper`: whether the type's attacks feed the prayer recommendation. */
  predicate IsPrayerHelper(cfg: Config, k: NpcType)
    ensures IsPrayerHelper(cfg, k) <==> k in HelperTypes && Toggle(cfg.prayer, k) == Some(true)
  {
    match k
    case Bat => cfg.prayer.bat
    case Blob => cfg.prayer.blob
    case Meleer => cfg.prayer.meleer
    case Ranger => cfg.prayer.ranger
    case Mage => cfg.prayer.mage
    case HealerJad => cfg.prayer.healerJad
    case Jad => cfg.prayer.jad
    case _ => false
  }

  /** `isNormalSafespots`: whether the type takes part in the safespot scan. */
  predicate IsNormalSafespots(cfg: Config, k: NpcType)
    ensures IsNormalSafespots(cfg, k) <==> k in HelperTypes && Toggle(cfg.safespots, k) == Some(true)
  {
    match k
    case Bat => cfg.safespots.bat
    case Blob => cfg.safespots.blob
    case Meleer => cfg.safespots.meleer
    case Ranger => cfg.safespots.ranger
    case Mage => cfg.safespots.mage
    case HealerJad => cfg.safespots.healerJad
    case Jad => cfg.safespots.jad
    case _ => false
  }

  /** `isTicksOnNpc`: whether the tick counter is drawn on the monster; Zuk is covered here too. */
  predicate IsTicksOnNpc(cfg: Config, k: NpcType)
    ensures IsTicksOnNpc(cfg, k) <==> k in HelperTypes + {Zuk} && Toggle(cfg.ticksOnNpc, k) == Some(true)
  {
    match k
    case Bat => cfg.ticksOnNpc.bat
    case Blob => cfg.ticksOnNpc.blob
    case Meleer => cfg.ticksOnNpc.meleer
    case Ranger => cfg.ticksOnNpc.ranger
    case Mage => cfg.ticksOnNpc.mage
    case HealerJad => cfg.ticksOnNpc.healerJad
    case Jad => cfg.ticksOnNpc.jad
    case Zuk => cfg.ticksOnNpc.zuk
    case _ => false
  }

  /** `isIndicateNpcPosition`: only the five wave monsters can be indicated. */
  predicate IsIndicateNpcPosition(cfg: Config, k: NpcType)
    ensures IsIndicateNpcPosition(cfg, k) <==> k in WaveTypes && Toggle(cfg.npcPosition, k) == Some(true)
  {
    match k
    case Bat => cfg.npcPosition.bat
    case Blob => cfg.npcPosition.blob
    case Meleer => cfg.npcPosition.meleer
    case Ranger => cfg.npcPosition.ranger
    case Mage => cfg.npcPosition.mage
    case _ => false
  }
}
