# Inferno helper: a verified model of its prediction and recommendation core

The Inferno plugin follows the monsters of the Inferno minigame tick by tick.
For each one it knows the ticks until the next attack and the kind of that
attack. From this it builds:

- a threat window, which maps each future tick to the attack kinds landing on
  it, with the most urgent priority of each kind;
- the recommended protection prayer, which it posts to a companion prayer
  plugin whenever it changes;
- a code for every tile around the player saying which attack styles reach it
  (safespots), plus the tiles behind Zuk's sliding shield;
- groups of monsters that attack on the same tick but need different
  prayers, shown by two NPC overlays and by an attack-timer panel.

This project models that core in Dafny and proves what it promises.

| file | module | what it holds |
|---|---|---|
| `types.dfy` | `InfernoTypes` | monster types, attack kinds, prayers, tiles, the roster record, the settings and the host facts; Java's truncating division |
| `text.dfy` | `Text` | `Integer.toString`, `Integer.parseInt` on ASCII digits, `indexOf`, joining with spaces |
| `settings.dfy` | `Settings` | the per-type setting lookups |
| `threat_window.dfy` | `ThreatWindow` | the threat window: advancing the monsters, recording their attacks (the blob fan-out included), the closest attack |
| `prayer_choice.dfy` | `PrayerChoice` | damage argmax, the tile-click prayer, the best attack next tick, the recommendation text |
| `safespots.dfy` | `Safespots` | the literal safespot code tables, the grid scan, the shield block, grouping tiles by code |
| `zuk_shield.dfy` | `ZukShield` | the shield tracker and its dead reckoning |
| `roster.dfy` | `RosterOps` | roster edits, the health estimate, the spawn timer, wave parsing, the central nibbler, the enhanced prayer priority, obstacles |
| `engine.dfy` | `Engine` | the class `InfernoEngine` holding the plugin's state, with one method per event handler |
| `same_tick.dfy` | `SameTick` | same-tick grouping shared by the newer NPC overlay and the panel |
| `pairwise.dfy` | `Pairwise` | the older overlay's gcd-periodicity pairing and its "S" marker |
| `outline.dfy` | `Outline` | the safespot tile colours and the area-outline edge deduplication |
| `panel.dfy` | `AttackPanel` | the attack-timer panel: buckets, groups, line splitting and text |

Host facts are inputs: whether the player is in the Inferno, positions,
health bars, NPC areas, the tick count, and the monster wrapper's
`canAttack`, priority, default attack, prayer of an attack and clock advance.
They become parameters, or arrow-typed fields of the `Host` record, with
nothing assumed about them beyond their types. `eventBus.post` appends to a
ghost sequence of posted recommendations.

Java's `HashMap` iteration order is unspecified. Every loop over a map's keys
therefore picks the next key with `:|`, so any order is allowed. Results that
depend on the order are stated for every order.

The safespot code tables are modelled exactly as written. The ranged table
turns 4 into 7 and leaves 5 alone; the magic table turns 5 into 7 and leaves
4 alone. They are not set union, and `Safespots.MagicRangedStepsOddEntries`
exhibits the four entries where they differ from it.

## Model

| member | source | states |
|---|---|---|
| `InfernoTypes.JavaDiv` | inferno/InfernoPlugin.java:1758-1761 | Java's int division: equal to floor division for a non-negative dividend and positive divisor, and never overshooting the dividend otherwise |
| `Text.IntToStringShape` | inferno/AttackTimerOverlay.java:181 | the decimal rendering of an int is non-empty: digits for a non-negative value, a minus sign and digits for a negative one |
| `Text.IntToString` | inferno/AttackTimerOverlay.java:181 | `Integer.toString`: the minus sign for a negative value, then the decimal digits without leading zeros; its shape is stated by `IntToStringShape`, and `ParseIntToString` reads it back |
| `Text.NatToStringValue` | inferno/AttackTimerOverlay.java:181 | the digits of a rendered natural read back to that natural |
| `Text.ParseJavaInt` | inferno/InfernoPlugin.java:1141 | a successful parse is a 32-bit value read from a non-empty string |
| `Text.ParseIntToString` | inferno/InfernoPlugin.java:1141 | parsing the rendering of any 32-bit int gives that int back |
| `Text.IndexOfFrom` | inferno/InfernoPlugin.java:1140-1141 | the result is −1 exactly when no occurrence starts at or after `from`; otherwise it is an occurrence with none before it |
| `Text.IndexOfIs` | inferno/InfernoPlugin.java:1140 | an occurrence with no earlier one is the index found |
| `Text.IndexOf` | inferno/InfernoPlugin.java:1140-1141 | −1 exactly when the pattern occurs nowhere; otherwise an occurrence with none before it |
| `Text.Contains` | inferno/InfernoPlugin.java:1138 | true exactly when the pattern occurs at some position of the message |
| `Text.JoinSpacedLength` | inferno/AttackTimerOverlay.java:177-181 | the joined text is the entries' total length plus one separator between each two entries |
| `Settings.IsPrayerHelper` | inferno/InfernoPlugin.java:1802-1823 | true exactly for the wave monsters, Jad and Jad's healers whose prayer toggle is on |
| `Settings.IsNormalSafespots` | inferno/InfernoPlugin.java:1779-1800 | true exactly for the same types whose safespot toggle is on |
| `Settings.IsTicksOnNpc` | inferno/InfernoPlugin.java:1711-1734 | true exactly for those types and Zuk whose tick-counter toggle is on |
| `Settings.IsIndicateNpcPosition` | inferno/InfernoPlugin.java:1692-1709 | true exactly for the five wave monsters whose position toggle is on |
| `ThreatWindow.Ensure` | inferno/InfernoPlugin.java:1192 | `computeIfAbsent`: the tick gets an entry, which is empty if it was new; every other entry is kept |
| `ThreatWindow.Lower` | inferno/InfernoPlugin.java:1247-1250 | a normal attack is min-merged: the slot holds the smaller of its old value and the priority, no other slot changes and nothing is raised |
| `ThreatWindow.BlobDetect` | inferno/InfernoPlugin.java:1194-1241 | the blob fan-out creates ticks t−3 and t−4, writes only on t−3, leaves t−3 with magic or ranged at the blob's priority or lower, and raises nothing |
| `ThreatWindow.DetectKind` | inferno/InfernoPlugin.java:1200-1240 | the detection tick gets magic or ranged; an existing magic entry wins, then an existing ranged one |
| `ThreatWindow.BlobDetectChoice` | inferno/InfernoPlugin.java:1200-1240 | the four-case precedence: existing magic, existing ranged, ranged when magic lands on t or t−4, magic when ranged does, magic otherwise |
| `ThreatWindow.Record` | inferno/InfernoPlugin.java:1178-1252 | recording one monster raises no entry and leaves its attack in the window, at its priority or lower, whenever it is eligible |
| `ThreatWindow.RecordOrigin` | inferno/InfernoPlugin.java:1187-1252 | recording a monster only keeps entries or adds ones that monster contributes |
| `ThreatWindow.RecordAllComplete` | inferno/InfernoPlugin.java:1168-1254 | after the whole roster, every eligible monster's attack is in the window at its priority or a more urgent one |
| `ThreatWindow.RecordAllSound` | inferno/InfernoPlugin.java:1168-1254 | every entry of the window was put there by some monster of the roster, with exactly that monster's priority |
| `ThreatWindow.RecordAll` | inferno/InfernoPlugin.java:1168-1254 | the window recorded from an empty map over the roster in order; `RecordAllComplete` and `RecordAllSound` state that it holds every eligible monster's attack and nothing else |
| `ThreatWindow.Advance` | inferno/InfernoPlugin.java:1170-1176 | advancing a monster keeps its identity and type; Zuk met while the corner counter is −1 gets 12 ticks with an unknown attack, and the counter becomes 0 |
| `ThreatWindow.AdvanceAll` | inferno/InfernoPlugin.java:1168-1176 | the advanced roster has the same length, identities and types, in order |
| `ThreatWindow.AdvanceAllCorner` | inferno/InfernoPlugin.java:1172-1176 | the corner counter goes from −1 to 0 exactly when Zuk is on the roster, and is otherwise untouched |
| `ThreatWindow.CalculateUpcomingAttacks` | inferno/InfernoPlugin.java:1166-1255 | the loop yields the advanced roster and the window built by recording it, in roster order, from an empty map |
| `ThreatWindow.ClosestAttack` | inferno/InfernoPlugin.java:1257-1281 | none outside the prayer-tab modes; otherwise some attack exactly when one lies before (999, 999), and it has the lexicographically smallest (tick, priority) |
| `PrayerChoice.Protection` | inferno/InfernoPlugin.java:368-389 | melee is protected by Protect from Melee and ranged by Protect from Missiles, and no other style by either |
| `PrayerChoice.MaxDamage` | inferno/InfernoPlugin.java:779-803 | every entry of the damage table lies between 15 and 120 |
| `PrayerChoice.PickByDamage` | inferno/InfernoPlugin.java:917-928 | the prayer chosen blocks at least as much damage as either other; ranged is chosen only when it beats melee, magic only when it beats both |
| `PrayerChoice.HeaviestPrayer` | inferno/InfernoPlugin.java:886-929 | no prayer for no attackers; otherwise the argmax of the summed damage per style |
| `PrayerChoice.DamageOnUniform` | inferno/InfernoPlugin.java:897-914 | a style nobody uses sums to zero damage; a style everybody uses sums to a positive amount |
| `PrayerChoice.UniformStylePicksIt` | inferno/InfernoPlugin.java:886-929 | attackers that all use one style get that style's protection prayer |
| `PrayerChoice.MinThreatTicksIsMin` | inferno/InfernoPlugin.java:391-431 | the minimum exists exactly when a threat of the style exists, belongs to such a threat, and is at most every such threat's ticks |
| `PrayerChoice.EarlierMinimum` | inferno/InfernoPlugin.java:391-431 | comparing the two styles' minima decides which style has a threat no later than all threats of the other |
| `PrayerChoice.PairPrayer` | inferno/InfernoPlugin.java:391-509 | on a two-style tile (`PairChoice`): protect from the style whose earliest threat comes first, the first style on a tie; from the only style with threats; or from the fallback style when neither has one |
| `PrayerChoice.AliveHelped` | inferno/InfernoPlugin.java:383-385 | the attackers weighed on an all-styles tile are exactly the alive prayer-helped monsters of the roster |
| `PrayerChoice.AliveHelpedAppend` | inferno/InfernoPlugin.java:383-385 | the filter keeps roster order: filtering a concatenation concatenates the filtered parts |
| `PrayerChoice.PrayerForSafespotValue` | inferno/InfernoPlugin.java:368-389 | no prayer exactly outside codes 1 to 7 (`SafespotPrayer`); codes 1, 2 and 3 give melee, missiles and magic; codes 4, 5 and 6 give the pair choice over melee/ranged (fallback melee), melee/magic and ranged/magic (fallback magic); code 7 gives magic with no attackers, otherwise the prayer blocking the most summed default-style damage of the alive prayer-helped monsters |
| `PrayerChoice.SafespotPrayer` | inferno/InfernoPlugin.java:368-389 | the clicked prayer for each code, as `PrayerForSafespotValue` states it; `SafespotPrayerUnique` shows it decides the prayer and `SafespotPrayerReaches` that the prayer protects from a style reaching the tile |
| `PrayerChoice.PairChoiceUnique` | inferno/InfernoPlugin.java:391-509 | the pair choice decides the prayer: two prayers meeting it are equal |
| `PrayerChoice.SafespotPrayerUnique` | inferno/InfernoPlugin.java:368-389 | a tile's code decides the clicked prayer: two results meeting `SafespotPrayer` are equal |
| `PrayerChoice.SafespotPrayerReaches` | inferno/InfernoPlugin.java:368-389 | the clicked prayer always protects from a style that reaches the tile by its code |
| `PrayerChoice.BestAttackNextTick` | inferno/InfernoPlugin.java:829-848 | none exactly when nothing on tick 1 is below `Integer.MAX_VALUE`; otherwise a kind on tick 1 with the smallest priority |
| `PrayerChoice.RecommendationRoundTrip` | inferno/InfernoPlugin.java:933-943 | the recommendation text reads back to the prayer it came from, so different prayers give different texts |
| `PrayerChoice.RecommendationText` | inferno/InfernoPlugin.java:933-943 | the text is "none" exactly for no prayer; `RecommendationRoundTrip` reads every text back to its prayer |
| `PrayerChoice.PrayingText` | inferno/InfernoPlugin.java:807-867 | "none" when neither praying option is on, and on odd ticks under one-tick praying; otherwise the text of the best prayer |
| `Safespots.MeleeStepIsUnion` | inferno/InfernoPlugin.java:1319-1337 | the melee table adds exactly melee to the tile's style set |
| `Safespots.MeleeStep` | inferno/InfernoPlugin.java:1319-1337 | on a code in 0..7 the melee table gives a code in 0..7 whose style set is the old one plus melee |
| `Safespots.MagicStep` | inferno/InfernoPlugin.java:1339-1359 | on a code in 0..7 the magic table gives a code in 0..7 that keeps every style, and adds exactly magic except at 4 and 5 |
| `Safespots.RangedStep` | inferno/InfernoPlugin.java:1361-1381 | on a code in 0..7 the ranged table gives a code in 0..7 that keeps every style, and adds exactly ranged except at 4 and 5 |
| `Safespots.MagicRangedSteps` | inferno/InfernoPlugin.java:1339-1381 | the magic and ranged tables add their style to every code except the two each leaves alone or sends to 7 |
| `Safespots.MagicRangedStepsOddEntries` | inferno/InfernoPlugin.java:1339-1381 | the four entries that are not set union: magic leaves 4 and sends 5 to 7; ranged leaves 5 and sends 4 to 7 |
| `Safespots.NpcStepGrows` | inferno/InfernoPlugin.java:1316-1402 | one monster's step keeps the code in 0..7, never drops a style, and makes a safe tile unsafe when the monster has a style and reaches it |
| `Safespots.NpcStep` | inferno/InfernoPlugin.java:1316-1402 | one monster's step keeps a code in 0..7, never drops a style, and changes the code only when the monster reaches the tile |
| `Safespots.TileCodeMeaning` | inferno/InfernoPlugin.java:1304-1403 | a tile's code is in range and exists exactly when a monster takes part; it holds melee when a melee monster reaches the tile; it is non-zero when a reaching monster has a style or is a blob, and non-zero only when some taking-part monster reaches it |
| `Safespots.TileCode` | inferno/InfernoPlugin.java:1304-1403 | a tile's code, when it has one, is in 0..7 |
| `Safespots.HalfSize` | inferno/InfernoPlugin.java:1291 | `Math.floor(size / 2.0)`: h is the largest value with 2h ≤ size |
| `Safespots.ScanSafespots` | inferno/InfernoPlugin.java:1287-1407 | every tile of the square that is not an obstacle, and that some monster takes part in, gets its tile code; no other tile gets an entry |
| `Safespots.StampShieldBlock` | inferno/InfernoPlugin.java:1569-1578 | the five-by-three block below the shield gets the code; every other tile keeps its entry |
| `Safespots.GroupByCode` | inferno/InfernoPlugin.java:1580-1596 | each tile lands in exactly the group of its own code, and every group is non-empty |
| `ZukShield.ResetOnZukSpawn` | inferno/InfernoPlugin.java:982-986 | a Zuk spawn restarts the tracker: not yet moving, no last position, no base |
| `ZukShield.StartAttackTimer` | inferno/InfernoPlugin.java:1172-1176 | the corner counter moves from −1 to 0 and the base is kept |
| `ZukShield.Observe` | inferno/InfernoPlugin.java:1409-1457 | the base is captured exactly when the shield's x differs from its last known position while the corner counter is −2: it becomes that last position and the counter −1; otherwise the base is kept; the last delta is this tick's x change; a move sets the direction, restarts the corner countdown at 4 when the shield was resting and keeps both rest positions; a resting shield keeps its direction, records its x as the rest position on the side it last moved towards and counts the countdown down while it is positive |
| `ZukShield.RestingCountsDown` | inferno/InfernoPlugin.java:1435-1452 | a shield resting k ticks in a row waits out its corner countdown one tick at a time, never below 0, keeps its direction, and has its x recorded as the rest position on the side it last moved towards |
| `ZukShield.PredictStep` | inferno/InfernoPlugin.java:1497-1560 | no prediction exactly in the final phase with no ticks left; moving right it never passes the right rest x, otherwise never the left one |
| `ZukShield.PredictStepMoves` | inferno/InfernoPlugin.java:1514-1560 | away from the corner the shield moves one tile per tick; past it, it bounces back by exactly the overshoot |
| `ZukShield.PredictAllBounded` | inferno/InfernoPlugin.java:1493-1562 | with Zuk on the roster, the predicted x never passes the rest position on the side the shield moves towards |
| `ZukShield.PredictAll` | inferno/InfernoPlugin.java:1493-1562 | the reckoning is abandoned only in the final phase |
| `ZukShield.PredictShieldX` | inferno/InfernoPlugin.java:1484-1567 | no prediction until both rest positions are known; otherwise the reckoning over the roster from the current x |
| `ZukShield.PredictAllStops` | inferno/InfernoPlugin.java:1499-1505 | an abandoned reckoning stays abandoned over the rest of the roster |
| `RosterOps.WithoutNpc` | inferno/InfernoPlugin.java:1049 | `removeIf`: exactly the entries wrapping other NPCs remain; nothing changes when no entry wraps the NPC |
| `RosterOps.WithoutNpcTwice` | inferno/InfernoPlugin.java:1049 | removing the same NPC twice is removing it once |
| `RosterOps.WithoutNpcAppend` | inferno/InfernoPlugin.java:1049 | removal keeps the relative order of what remains |
| `RosterOps.Placed` | inferno/InfernoPlugin.java:968-1017 | a blob joins at the end and any other monster at the front, with the rest of the roster unchanged |
| `RosterOps.PlacedThenRemoved` | inferno/InfernoPlugin.java:1017-1049 | a spawn followed by that NPC's despawn restores the roster when its identity was new |
| `RosterOps.SuspendZukTimers` | inferno/InfernoPlugin.java:1006-1012 | every Zuk entry's timer becomes −1 and every other entry is unchanged |
| `RosterOps.NpcHp` | inferno/InfernoPlugin.java:1736-1777 | −1 when the ratio is negative, the health is not positive or the maximum is unknown; 0 for an empty bar |
| `RosterOps.NpcHpBounds` | inferno/InfernoPlugin.java:1749-1774 | a partly full bar stands for between 1 and the maximum hitpoints |
| `RosterOps.NpcHpFull` | inferno/InfernoPlugin.java:1754-1773 | a full bar of more than one segment stands for exactly the maximum |
| `RosterOps.NpcHpSingleSegment` | inferno/InfernoPlugin.java:1768-1773 | a one-segment bar with anything on it gives (maxHp + 2) / 2 |
| `RosterOps.SpawnTimerAction` | inferno/InfernoPlugin.java:1659-1690 | a running timer pauses exactly when the estimate is in [480, 600); a paused one resumes exactly when it is in (0, 480); only with Zuk, a timer and no final phase |
| `RosterOps.SpawnTimerSettles` | inferno/InfernoPlugin.java:1676-1689 | a second reading of the same bar changes nothing, and a paused timer stays paused at 480 and above |
| `RosterOps.ParseWave` | inferno/InfernoPlugin.java:1138-1141 | a wave number is read only from a message containing "Wave:", and it fits in 32 bits |
| `RosterOps.ParseWaveAnnouncement` | inferno/InfernoPlugin.java:1136-1142 | the game's announcement of wave n is read back as n |
| `RosterOps.NextWaveNumber` | inferno/InfernoPlugin.java:1161-1164 | the next wave is the current one plus one, or unknown (−1) exactly for the unknown wave, wave −2 and the last wave 69 |
| `RosterOps.NextAfterAnnouncement` | inferno/InfernoPlugin.java:1136-1164 | after the announcement of waves 1 to 68 the next wave is n + 1; after wave 69 there is none |
| `RosterOps.CentralNibbler` | inferno/InfernoPlugin.java:1615-1657 | the nibbler with the most nibblers around it, nearest the player on a tie and earliest after that; none when no nibbler beats the baseline |
| `RosterOps.AttackersAt` | inferno/InfernoPlugin.java:612-619 | a tick's group holds exactly the prayer-helped monsters that attack on that positive tick |
| `RosterOps.GroupAttacksByTick` | inferno/InfernoPlugin.java:608-619 | one non-empty entry per tick some prayer-helped monster attacks on, holding those monsters in roster order |
| `RosterOps.MarkSimultaneous` | inferno/InfernoPlugin.java:621-647 | a monster is marked exactly when it belongs to a tick group that has several members or has a non-empty group at most the threshold ticks after it, or it belongs to a group at most the threshold ticks after a non-empty one |
| `RosterOps.MarkedSymmetric` | inferno/InfernoPlugin.java:621-647 | the same marking without the loop's direction: several on its tick, or another non-empty group within the threshold before or after |
| `RosterOps.CollectObstacles` | inferno/InfernoPlugin.java:1598-1604 | the obstacles are exactly the tiles of the NPC areas |
| `Engine.CountTick` | inferno/InfernoPlugin.java:594-602 | the healers' spawn tick is not counted again; every later final-phase tick adds one |
| `Engine.CountAfterHealersIs` | inferno/InfernoPlugin.java:1003-1005 | k ≥ 1 game ticks after the healers spawn, the counter reads k |
| `Engine.ZukSafespots` | inferno/InfernoPlugin.java:1459-1480 | the live modes stamp the block behind the live shield with code 0; the predicting modes stamp the predicted block with code 2 when a prediction exists |
| `Engine.BestPrayer` | inferno/InfernoPlugin.java:819-853 | with the panel on and several attackers next tick, the combined-damage prayer; otherwise the prayer of a kind with the smallest priority below `Integer.MAX_VALUE` on tick 1, or none; with the off-tick Jad option and Jad present, melee instead of none (`BestChoice`) |
| `Engine.CombinedThreat` | inferno/InfernoPlugin.java:886-929 | the combined-threat prayer over next tick's attackers; `CombinedThreatBlocksMost` states what it blocks |
| `Engine.CombinedThreatBlocksMost` | inferno/InfernoPlugin.java:886-929 | the combined-threat prayer blocks at least as much of next tick's summed maximum damage as either other prayer, and attackers that all use one style get that style's protection |
| `Engine.IsClickedTile` | inferno/InfernoPlugin.java:307-318 | a click selects the safespot tile whose x and y are the click's two parameters; `OnMenuOptionClicked` states the click handling built on it |
| `Engine.InfernoEngine.constructor` | inferno/InfernoPlugin.java:134-209 | the fields start as declared: empty roster, window and safespot map, nothing posted, outside the final phase, the tracker at its initial values |
| `Engine.InfernoEngine.Post` | inferno/InfernoPlugin.java:871-872 | the text is appended to the posted recommendations and remembered as the last one |
| `Engine.InfernoEngine.OnMenuOptionClicked` | inferno/InfernoPlugin.java:268-366 | a "Walk here" click on a safespot tile with code 0 posts "none"; with code 1 to 7 it posts the text of the prayer `SafespotPrayer` gives that code over the current roster; no other click posts, and the roster, safespots and tracker are unchanged |
| `Engine.InfernoEngine.OnNpcSpawned` | inferno/InfernoPlugin.java:946-1018 | outside the Inferno, or for an unknown monster, nothing changes; the shield is remembered and nothing else changes; a blob is appended, any other monster put in front after its type's side effects; the phase, the counters, the tracker and the timer fields keep their values unless the type's effect changes them |
| `Engine.InfernoEngine.Admit` | inferno/InfernoPlugin.java:968-1017 | the type's side effects and the roster placement: mage restarts the timer, Zuk resets the tracker, the healers start the final phase; every field no effect of the type touches keeps its value |
| `Engine.InfernoEngine.SpawnSideEffects` | inferno/InfernoPlugin.java:968-1015 | the phase, tracker and spawn-timer effects of each type's spawn; the tracker is kept for every type but Zuk, the phase and counters for every type but Zuk and its healers, the timer fields unless Zuk (with the infobox) or a mage (with Zuk and the timer present) sets them |
| `Engine.InfernoEngine.Enroll` | inferno/InfernoPlugin.java:1002-1017 | a blob joins at the end, another monster at the front; the healers suspend Zuk's timer |
| `Engine.InfernoEngine.OnNpcDespawned` | inferno/InfernoPlugin.java:1021-1050 | outside the Inferno nothing changes; the shield's despawn forgets the shield and changes nothing else; any other despawn removes its entry from the roster, and Zuk's despawn also stops following Zuk and drops the timer; Zuk and the timer are kept for every other despawn, and the shield for every despawn but its own |
| `Engine.InfernoEngine.OnAnimationChanged` | inferno/InfernoPlugin.java:1053-1078 | a dying nibbler leaves the roster; with blob death locations on, a dying blob leaves it and its location is remembered |
| `Engine.InfernoEngine.OnGameStateChanged` | inferno/InfernoPlugin.java:1081-1126 | when logged in outside the Inferno, the roster is cleared, the wave becomes unknown and the shield, Zuk and the timer are forgotten; entering with the wave unknown clears the roster and starts at wave 1; when not logged in, or when entering with a known wave, the roster and wave are kept; the shield, Zuk and timer flags are kept in every case but the first |
| `Engine.InfernoEngine.OnChatMessage` | inferno/InfernoPlugin.java:1129-1143 | a game message announcing a wave sets the wave number; nothing else changes |
| `Engine.InfernoEngine.DoPraying` | inferno/InfernoPlugin.java:805-877 | the last recommendation is "none" with praying off, otherwise the praying text of a prayer `BestChoice` allows (`Recommends`); a text is posted exactly when it differs from the last one, and then appended (`PostedOnChange`) |
| `Engine.InfernoEngine.CalculateSafespots` | inferno/InfernoPlugin.java:1285-1482 | below wave 69 the grid scan (empty with safespots off), each tile with its tile code; on wave 69 with the shield the tracker is observed once and the shield blocks stamped as the phase's display mode says; otherwise an empty map and the tracker unchanged |
| `Engine.InfernoEngine.OnGameTick` | inferno/InfernoPlugin.java:548-603 | outside the Inferno nothing changes; inside: the roster advances and the window is rebuilt from it; with the panel or proactive detection on, the tick groups are exactly the ticks some prayer-helped monster attacks on, each holding those monsters in roster order and non-empty (`GroupsOf`), and a monster is marked simultaneous exactly when `MarkSimultaneous` adds it from some group (`MarkedOf`), while with both off the groups and marks keep their values; the closest attack is the smallest of the window (none in the bottom mode); the recommendation follows `Recommends` and is posted on change; the safespots are those of the advanced roster and the previous tick's obstacles (the shield blocks on wave 69, with the tracker observed once); in the area mode the areas are exactly the safespot tiles grouped by code, each non-empty, and otherwise there are none (`AreasOf`); the obstacles cover the NPC areas; the central nibbler is the argmax or none; the spawn timer and the final-phase count advance |
| `Engine.InfernoEngine.TickInInferno` | inferno/InfernoPlugin.java:555-602 | the same tick inside the Inferno, with the same clauses as `OnGameTick`: the exact tick groups and simultaneous marks when enabled (kept otherwise), the exact areas in the area mode, and the threat results kept by the surroundings half |
| `Engine.InfernoEngine.TickThreats` | inferno/InfernoPlugin.java:555-577 | the roster and corner counter advance and nothing else of the tracker changes; the window is rebuilt from the roster; with the panel or proactive detection on, the tick groups are exactly those of the prayer-helped monsters (`GroupsOf`) and the marks exactly those `MarkSimultaneous` adds (`MarkedOf`), otherwise both keep their values; the closest attack is the window's smallest; the recommendation follows `Recommends` and is posted on change |
| `Engine.InfernoEngine.AdvanceMonsters` | inferno/InfernoPlugin.java:557-558 | the roster and corner counter become the advanced ones, and the window is built from the advanced roster |
| `Engine.InfernoEngine.Regroup` | inferno/InfernoPlugin.java:561-564 | with the panel or proactive detection on, a tick has a group exactly when some prayer-helped monster attacks on it, and the group holds those monsters in roster order and is non-empty (`GroupsOf`); a monster is marked exactly when it belongs to a group that `MarkSimultaneous` marks (`MarkedOf`); with both options off the groups and marks keep their values |
| `Engine.InfernoEngine.TickSurroundings` | inferno/InfernoPlugin.java:579-602 | the safespots are those of the roster and the obstacles as they were before this step (`SafespotsOf`), with the tracker observed only on wave 69 with the shield; in the area mode the areas are exactly the safespot tiles grouped by code, each non-empty, and otherwise there are none (`AreasOf`); the obstacles then cover the NPC areas; the central nibbler is found; the spawn timer follows its decision and the final-phase count advances; the roster, window, groups, marks, closest attack and recommendations are unchanged |
| `Engine.InfernoEngine.TickArea` | inferno/InfernoPlugin.java:579-585 | the safespots from the obstacles as they were, their areas as the exact grouping by code in the area mode and none otherwise (`AreasOf`), then the obstacles rebuilt to cover the NPC areas |
| `Engine.InfernoEngine.TickCounters` | inferno/InfernoPlugin.java:587-602 | the central nibbler, the spawn timer decision and the final-phase count |
| `Engine.InfernoEngine.RebuildObstacles` | inferno/InfernoPlugin.java:584-585 | the obstacles are exactly the tiles of the NPC areas |
| `Engine.InfernoEngine.DecideSpawnTimer` | inferno/InfernoPlugin.java:1659-1690 | the timer's running flag follows the pause/resume decision |
| `Engine.InfernoEngine.CountFinalPhaseTick` | inferno/InfernoPlugin.java:594-602 | the final-phase count advances as `CountTick` says |
| `Engine.InfernoEngine.RebuildSafespots` | inferno/InfernoPlugin.java:579-582 | the safespots are recomputed as `SafespotsOf` says; in the area mode every safespot tile is in the area of its code, every tile of an area is a safespot with that code, and no area is empty; in any other mode there are no areas (`AreasOf`) |
| `Engine.InfernoEngine.GroupAreas` | inferno/InfernoPlugin.java:581-582 | in the area mode every safespot tile is in the area of its code, every tile of an area is a safespot with that code, and no area is empty; in any other mode there are no areas (`AreasOf`) |
| `Engine.InfernoEngine.FindCentralNibbler` | inferno/InfernoPlugin.java:587-588 | none exactly when no nibbler beats the baseline; otherwise a nibbler of the roster that beats the baseline and every earlier nibbler and is beaten by no later one (`CentralOf`) |
| `SameTick.Active` | inferno/InfernoOverlay.java:214-222 | the candidates are exactly the roster's monsters with an upcoming attack, alive and of an attacking type |
| `SameTick.IsAttackingType` | inferno/InfernoOverlay.java:262-268 | the attacking types are exactly Jad, mage, ranger, meleer, blob and bat: nibblers, both healer types and Zuk are excluded |
| `SameTick.CollectActive` | inferno/InfernoOverlay.java:211-222 | the collecting loop yields the candidates in roster order |
| `SameTick.OnTick` | inferno/InfernoOverlay.java:225-230 | a tick's list holds exactly the candidates attacking on that tick |
| `SameTick.ByTickEntries` | inferno/InfernoOverlay.java:225-230 | every tick's entry is non-empty, and a tick without an entry has no candidates |
| `SameTick.GroupByTick` | inferno/InfernoOverlay.java:225-230 | `npcsByTick` holds one entry per tick some candidate attacks on, with those candidates in order |
| `SameTick.PrayersOf` | inferno/InfernoOverlay.java:273-286 | the set holds exactly the non-null prayers the monsters' next attacks call for |
| `SameTick.RequiresDifferentPrayers` | inferno/InfernoOverlay.java:273-286 | true exactly when the monsters call for more than one distinct non-null prayer |
| `SameTick.TwoPrayersNeeded` | inferno/InfernoOverlay.java:273-286 | two monsters calling for different non-null prayers make the answer true |
| `SameTick.TwoPrayersWitness` | inferno/InfernoOverlay.java:273-286 | a true answer has two monsters calling for different non-null prayers |
| `SameTick.DamageTablesAgree` | inferno/AttackTimerOverlay.java:439-451 | the panel's damage table differs from the overlay's only on Zuk (30 against 120) |
| `SameTick.PanelMaxDamage` | inferno/AttackTimerOverlay.java:439-451 | every entry lies between 15 and 97, and the table agrees with the plugin's on every type but Zuk |
| `SameTick.CalculateGroupPriority` | inferno/InfernoOverlay.java:291-299 | a group's priority is the summed maximum damage of its members |
| `SameTick.GroupPrioritiesAgree` | inferno/AttackTimerOverlay.java:426-451 | for monsters of attacking types, the two tables give a group the same priority |
| `SameTick.ResultOfMeaning` | inferno/InfernoOverlay.java:232-254 | exactly the candidates on forming ticks are grouped, each with its tick's candidates, the summed damage, and palette colour k mod 8 for the k-th group |
| `SameTick.ResultOfShape` | inferno/InfernoOverlay.java:245-250 | over distinct ticks, each member of a formed tick maps to the group of its tick |
| `SameTick.PutAll` | inferno/InfernoOverlay.java:247-250 | every member maps to the group and every other key keeps its entry |
| `SameTick.FindGroups` | inferno/InfernoOverlay.java:224-256 | the groups are those of the ticks that form one (two or more candidates needing different prayers), each formed once, in some visiting order |
| `SameTick.Forms` | inferno/InfernoOverlay.java:239-240 | a tick forms a group when two or more candidates attack on it needing more than one distinct prayer; `FormsClash` derives two candidates with different non-null prayers |
| `SameTick.OverlayGroups` | inferno/InfernoOverlay.java:208-257 | the newer overlay's groups: candidates from the roster, damage from the plugin's table |
| `SameTick.OverlayMembersEligible` | inferno/InfernoOverlay.java:214-254 | a grouped monster is alive, of an attacking type, has an upcoming attack and is never alone on its tick |
| `SameTick.IndicatorMeaning` | inferno/InfernoOverlay.java:611-635 | a "!" is drawn exactly for a candidate of the roster on a tick that forms a group; then two candidates on that tick need different non-null prayers, the colour is the palette colour of the tick's place among the formed groups, and the warning shows exactly when the summed maximum damage on the tick is above 80 |
| `SameTick.GroupIndicator` | inferno/InfernoOverlay.java:611-635 | a "!" exactly for a grouped monster that is not dying and has an upcoming attack, in its group's colour, with the warning exactly when the group's priority is above 80 |
| `SameTick.FormsClash` | inferno/InfernoOverlay.java:239-240 | a tick that forms a group has two candidates of the roster needing different non-null prayers |
| `SameTick.CriticalMeansPrayNextTick` | inferno/InfernoOverlay.java:589-594 | for a monster the threat window records (blob detection on for a blob), the critical colour is used exactly when the monster puts an attack on the next tick of the window; a critical monster of the roster always has next tick in the window |
| `SameTick.CriticalTickColour` | inferno/InfernoOverlay.java:589-594 | the critical colour for an attack next tick, or a blob four ticks out; `CriticalMeansPrayNextTick` ties it to the threat window's next tick |
| `Pairwise.AttackCycle` | InfernoOverlay.java:543-555 | every attack cycle lies between 3 and 8 ticks |
| `Pairwise.GcdDivides` | InfernoOverlay.java:537-540 | the gcd divides both arguments and is positive unless both are zero |
| `Pairwise.GcdGreatest` | InfernoOverlay.java:537-540 | every common divisor divides the gcd |
| `Pairwise.CycleGcd` | InfernoOverlay.java:530-533 | the gcd of two cycles is positive and divides both |
| `Pairwise.Gcd` | InfernoOverlay.java:537-540 | Euclid's algorithm; `GcdDivides` and `GcdGreatest` state that it is the greatest common divisor |
| `Pairwise.CanAttackSymmetric` | InfernoOverlay.java:520-535 | the pairing test is symmetric, and no monster pairs with itself |
| `Pairwise.CanAttackSimultaneously` | InfernoOverlay.java:520-535 | a pair needs two different non-null prayers; `CanAttackSymmetric`, `SameTickPairs` and `RejectedNeverCoincide` state the rest |
| `Pairwise.SameTickPairs` | InfernoOverlay.java:520-535 | two monsters attacking on the same tick with different non-null prayers always pair |
| `Pairwise.RejectedNeverCoincide` | InfernoOverlay.java:528-534 | a pair rejected on its ticks can never attack on the same tick at any later cycle |
| `Pairwise.BlobAgainstJad` | InfernoOverlay.java:528-555 | a blob and Jad with different prayers pair at a tick difference of 2 and not at 1 |
| `Pairwise.MeleerAgainstRanger` | InfernoOverlay.java:528-555 | a meleer and a ranger with different prayers pair at every tick difference |
| `Pairwise.PairedMeaning` | InfernoOverlay.java:500-514 | after all pairs are visited, the marked monsters are exactly those that pair with some other monster |
| `Pairwise.FindSimultaneousAttackers` | InfernoOverlay.java:470-517 | a monster is marked exactly when it is a candidate that pairs with some other candidate |
| `Pairwise.ShowsSMeansMarked` | InfernoOverlay.java:564-569 | for a set of marked candidates, the "S" is shown exactly for the marked monsters: the extra alive and upcoming-attack checks never hide it |
| `Outline.StylesMatchCodes` | inferno/InfernoOverlay.java:347-391 | both renderers draw the same codes; an area's edges carry exactly the colours of the styles reaching it (white for safe); code 7 is never drawn |
| `Outline.TileColour` | inferno/InfernoOverlay.java:533-580 | a colour exactly for codes 0 to 6, white exactly for the safe code 0 |
| `Outline.AreaStyleOf` | inferno/InfernoOverlay.java:343-391 | a style exactly for the codes the tile renderer draws, filled in that renderer's colour, and dashed exactly for the two-style codes 4 to 6 |
| `Outline.Square` | inferno/InfernoOverlay.java:416 | a square is non-negative and zero only for zero |
| `Outline.DistSqProperties` | inferno/InfernoOverlay.java:763-768 | squared distance is symmetric, non-negative and zero only between equal points |
| `Outline.PointEqualsPoint` | inferno/InfernoOverlay.java:763-768 | no points match under a negative tolerance, and a point matches itself exactly when the tolerance is non-negative |
| `Outline.EdgeEqualsProperties` | inferno/InfernoOverlay.java:757-761 | edge matching is symmetric; an edge matches itself and its reverse at any non-negative tolerance, and only those at zero |
| `Outline.EdgeEqualsEdge` | inferno/InfernoOverlay.java:757-761 | no edges match under a negative tolerance, and an edge matches itself and its reverse exactly when the tolerance is non-negative |
| `Outline.AllEdges` | inferno/InfernoOverlay.java:397-427 | four edges per projected tile |
| `Outline.TileEdgesCollected` | inferno/InfernoOverlay.java:415-426 | each projected tile contributes its four edges in corner order |
| `Outline.SumSqAppend` | inferno/InfernoOverlay.java:416-425 | the summed squared lengths add up over concatenation |
| `Outline.QuadSumSq` | inferno/InfernoOverlay.java:416-425 | a tile's four edges add their four squared lengths |
| `Outline.CollectEdges` | inferno/InfernoOverlay.java:394-427 | the loop yields all edges of the projected tiles and the sum of their squared lengths |
| `Outline.Tolerance` | inferno/InfernoOverlay.java:434-437 | the tolerance is non-negative and six times it, times the edge count, is at most the summed squared length |
| `Outline.KeptMeaning` | inferno/InfernoOverlay.java:439-470 | the drawn edges are exactly the unmatched ones, in order |
| `Outline.UniqueEdges` | inferno/InfernoOverlay.java:439-470 | the dedup loop keeps exactly the edges no other edge matches |
| `Outline.SharedEdgeNotDrawn` | inferno/InfernoOverlay.java:439-470 | an edge two tiles share, in either direction, is never drawn |
| `Outline.NoEdgesNoTiles` | inferno/InfernoOverlay.java:429-432 | there are no edges exactly when no tile projects |
| `Outline.OutlineArea` | inferno/InfernoOverlay.java:343-471 | a skipped code or an area with no projected tile draws nothing; otherwise its style and the unmatched edges under the computed tolerance |
| `Outline.ProjectedTiles` | inferno/InfernoOverlay.java:397-413 | the filled tiles are the projected ones, in order |
| `Outline.NeighbourSideDropped` | inferno/InfernoOverlay.java:439-470 | two neighbouring tiles drop both copies of their shared side at any tolerance |
| `AttackPanel.FilterMembers` | inferno/AttackTimerOverlay.java:119-125 | a bucket holds exactly one type's monsters with an upcoming attack; the grouping candidates are exactly the monsters with an upcoming attack and of an attacking type |
| `AttackPanel.BucketsAreCandidates` | inferno/AttackTimerOverlay.java:131-145 | every monster of a displayed bucket is a grouping candidate |
| `AttackPanel.BucketOf` | inferno/AttackTimerOverlay.java:119-125 | the loop yields one type's bucket in roster order |
| `AttackPanel.PanelGroups` | inferno/AttackTimerOverlay.java:344-392 | the panel's groups are those of its forming ticks, with the panel's damage table |
| `AttackPanel.SameKeyMeansSameGroup` | inferno/AttackTimerOverlay.java:326-332 | two groups of the result are equal under `equals` (tick and priority) exactly when they are the same group |
| `AttackPanel.SplitMembers` | inferno/AttackTimerOverlay.java:229-240 | the groups present, the ungrouped monsters and each group's members are exactly what the map says |
| `AttackPanel.HasMultipleGroups` | inferno/AttackTimerOverlay.java:201-221 | true exactly when an ungrouped monster meets a group, or two different groups are present |
| `AttackPanel.SplitStatus` | inferno/AttackTimerOverlay.java:201-221 | no group exactly when every monster is ungrouped; no ungrouped monster exactly when all are grouped; then one group exactly when all share it |
| `AttackPanel.SingleLineMeansOneStatus` | inferno/AttackTimerOverlay.java:150-157 | one line exactly when all monsters are ungrouped or all share one group |
| `AttackPanel.SharedTintMeaning` | inferno/AttackTimerOverlay.java:184-188 | an all-ungrouped line has the text colour; a line of one group has that group's colour |
| `AttackPanel.SingleLineOf` | inferno/AttackTimerOverlay.java:158-195 | the loop builds the single line: "tick symbol" entries joined by spaces, with a warning sign on grouped entries |
| `AttackPanel.SingleLine` | inferno/AttackTimerOverlay.java:158-195 | the single line of a type: its name, the entries joined by spaces, in the colour `SharedTintMeaning` states; `SingleLineOf` is the loop that builds it |
| `AttackPanel.Entry` | inferno/AttackTimerOverlay.java:162-181 | one monster's entry: its ticks, its attack symbol and a warning sign when it is grouped; `SingleLineOf` and `MultiGroupLines` build lines from it |
| `AttackPanel.TypeName` | inferno/AttackTimerOverlay.java:479-491 | the display names of the six listed types, the enum name for any other; `BlockNamesTypeOnce` places it |
| `AttackPanel.Symbol` | inferno/AttackTimerOverlay.java:493-502 | the symbol of each attack style, a question mark for an unknown one |
| `AttackPanel.Partition` | inferno/AttackTimerOverlay.java:229-240 | each monster lands in the normal list or its group's list, in order |
| `AttackPanel.MultiGroupLines` | inferno/AttackTimerOverlay.java:223-303 | one line for the ungrouped monsters, then one per group present, each group once |
| `AttackPanel.MultiLines` | inferno/AttackTimerOverlay.java:223-303 | the ungrouped line first when there is one, then one line per group; `MultiGroupLines`, `OneLineEach` and `BlockNamesTypeOnce` state it |
| `AttackPanel.OneLineEach` | inferno/AttackTimerOverlay.java:229-240 | every monster appears on exactly one of the lines |
| `AttackPanel.BlockNamesTypeOnce` | inferno/AttackTimerOverlay.java:245-292 | the type name appears on the first line of a type's block only |
| `AttackPanel.TypeBlock` | inferno/AttackTimerOverlay.java:145-196 | a type's lines are the single line or the split lines, as `hasMultipleGroups` decides |
| `AttackPanel.RendersAllAt` | inferno/AttackTimerOverlay.java:140-197 | block i renders the bucket of the i-th displayed type |
| `AttackPanel.AddAttackTimers` | inferno/AttackTimerOverlay.java:114-199 | one block per displayed type, in the order Jad, Mager, Ranger, Meleer, Blob, Bat, each rendering that type's bucket |
| `AttackPanel.PrayerLines` | inferno/AttackTimerOverlay.java:455-477 | the prayer lines appear exactly when there is a closest attack with a prayer, naming that prayer in the attack's colour |
| `AttackPanel.PrayerNamesDistinct` | inferno/AttackTimerOverlay.java:504-513 | different prayers get different display names |
| `AttackPanel.PrayerName` | inferno/AttackTimerOverlay.java:504-513 | the display name of each prayer; `PrayerNamesDistinct` shows different prayers get different names |
| `AttackPanel.AttackTint` | inferno/AttackTimerOverlay.java:515-524 | the text colour exactly for an unknown attack; the three styles get the style tints |
| `AttackPanel.Render` | inferno/AttackTimerOverlay.java:90-112 | nothing with the panel off; otherwise the title, the type blocks and the prayer lines |

## Left out

- Drawing is not modelled: Graphics2D, polygons, fonts, colours as pixels, widgets, sprites and panel components. The model keeps what is drawn and in which colour.
- `InfernoNPC` is not part of this model: the clock advance (`gameTick`), `canAttack`, `canMoveToAttack`, `typeFromId`, priorities, default attacks and the prayer of an attack are uninterpreted host facts.
- `updateNextAttack(UNKNOWN, 12)` is taken to set both the next attack and the timer, since its code is not part of this model.
- The host API is not modelled: the region check, nearest-NPC lookup, animations, melee distance, area distances and the overlay and infobox managers. Their answers are parameters.
- `HashMap` iteration order is any order. This covers the panel's per-type map, the tick maps and the group visiting order. Tie-breaks that depend on it are therefore left open.
- `ThreatWindow.ClosestAttack`: among equal (tick, priority) the attack kind returned is any of them, not the first in Java's iteration order.
- `PrayerChoice.BestAttackNextTick`: on a priority tie the kind returned is any of the tied ones.
- `AttackPanel.PanelGroups`: the grouping candidates are taken in roster order. The source concatenates its per-type lists in `HashMap` order, so a group's member list may be ordered differently. Membership, tick, priority and colour are unaffected.
- `Text.ParseJavaInt`: only the ASCII digits 0 to 9 are read; `Integer.parseInt` also accepts the decimal digits of other Unicode scripts, which the wave announcement never contains.
- `RosterOps.MarkSimultaneous`: the set of marked monsters is modelled, not the list with its repeats.
- 32-bit overflow is not modelled: ticks, priorities, damage sums and squared edge lengths are unbounded integers. The `Math.pow` and `int +=` of doubles in the edge sums are exact on the small values involved.
- `detectMovementThreats`, with the emergency recommendation it may post, the emergency-prayer fields and `isEmergencyPrayerActive`, is not modelled: it depends on the world geometry around the player. `calculateEmergencyPrayer`'s choice is `PrayerChoice.HeaviestPrayer` over default attacks.
- The spawn timer infobox's own countdown and the blob death spot countdown are not part of this model; only the plugin's run/pause decision and the death location are.
- `InfernoInfoBoxOverlay`, `InfernoWaveOverlay`, the Jad and prayer overlays and `renderDescendingBoxes` (clock time and pixel offsets) are rendering only.
- `onConfigChanged`, debug logging, `startUp`/`shutDown` registration and `renderOptimalSafespot` (code 42 is never written) are left out.
- `lastLocation` is not modelled. `calculateSafespotAreas` records the player's position in it at its end (inferno/InfernoPlugin.java:1595), and the next tick passes it to `InfernoNPC.gameTick` (inferno/InfernoPlugin.java:1170). The host's clock advance does not take that position, so any dependence of the advance on where the player stood last tick is folded into the uninterpreted host fact.
- `SimultaneousGroup.hashCode` is left out; only `equals` (tick and priority) is modelled.
- Title and header colours, and the enum `toString` names, are not modelled.
