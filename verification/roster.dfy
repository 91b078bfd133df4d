/**
 * The roster and phase helpers: removing a monster from the roster,
 * suspending Zuk's timer when the healers arrive, the integer health
 * estimate read off a health bar, the spawn-timer pause/resume decision,
 * the wave number read from a game message, the central nibbler, and the
 * grouping of upcoming attacks by tick with the detection of attacks that
 * land on the same or nearby ticks.
 */
module RosterOps {
  import opened InfernoTypes
  import opened Text
  import opened Settings

  /** `removeIf(entry wraps the given NPC)`: every other entry, in order. */
  function WithoutNpc(rs: seq<Npc>, id: int): (r: seq<Npc>)
    ensures |r| <= |rs|
    ensures forall n :: n in r <==> n in rs && n.id != id
    ensures forall k :: 0 <= k < |r| ==> r[k].id != id
    ensures (forall k :: 0 <= k < |rs| ==> rs[k].id != id) ==> r == rs
  {
    if |rs| == 0 then []
    else
      var r' := WithoutNpc(rs[..|rs| - 1], id);
      assert rs == rs[..|rs| - 1] + [rs[|rs| - 1]];
      if rs[|rs| - 1].id == id then r' else r' + [rs[|rs| - 1]]
  }

  /** Removing the same NPC a second time changes nothing. */
  lemma WithoutNpcTwice(rs: seq<Npc>, id: int)
    ensures WithoutNpc(WithoutNpc(rs, id), id) == WithoutNpc(rs, id)
  {
  }

  /** Removal keeps the relative order: what is left of a concatenation is the concatenation of what is left. */
  lemma {:induction false} WithoutNpcAppend(a: seq<Npc>, b: seq<Npc>, id: int)
    ensures WithoutNpc(a + b, id) == WithoutNpc(a, id) + WithoutNpc(b, id)
    decreases |b|
  {
    if |b| == 0 {
      assert a + b == a;
    } else {
      var b' := b[..|b| - 1];
      assert (a + b)[..|a + b| - 1] == a + b';
      WithoutNpcAppend(a, b', id);
    }
  }

  /**
   * Where a spawned monster enters the roster: blobs at the end (their
   * detection tick is derived from the attacks of everybody processed before
   * them), every other type at the front.
   */
  function Placed(rs: seq<Npc>, n: Npc): (r: seq<Npc>)
    ensures |r| == |rs| + 1
    ensures n.kind == Blob ==> r[|rs|] == n && r[..|rs|] == rs
    ensures n.kind != Blob ==> r[0] == n && r[1..] == rs
  {
    if n.kind == Blob then rs + [n] else [n] + rs
  }

  /** A spawned monster followed by its despawn leaves the roster as it was, when its identity was new. */
  lemma PlacedThenRemoved(rs: seq<Npc>, n: Npc)
    requires forall k :: 0 <= k < |rs| ==> rs[k].id != n.id
    ensures WithoutNpc(Placed(rs, n), n.id) == rs
  {
    if n.kind == Blob {
      WithoutNpcAppend(rs, [n], n.id);
      assert WithoutNpc([n], n.id) == WithoutNpc([], n.id);
    } else {
      WithoutNpcAppend([n], rs, n.id);
      assert WithoutNpc([n], n.id) == WithoutNpc([], n.id);
    }
  }

  /** The healers' arrival suspends every Zuk entry's attack timer (−1); nothing else changes. */
  method SuspendZukTimers(rs: seq<Npc>) returns (r: seq<Npc>)
    ensures |r| == |rs|
    ensures forall k :: 0 <= k < |rs| ==> r[k] == (if rs[k].kind == Zuk then rs[k].(ticks := -1) else rs[k])
    ensures forall k :: 0 <= k < |rs| && r[k].kind == Zuk ==> r[k].ticks < 1
  {
    r := rs;
    var i := 0;
    while i < |r|
      invariant 0 <= i <= |r| == |rs|
      invariant forall k :: 0 <= k < i ==> r[k] == (if rs[k].kind == Zuk then rs[k].(ticks := -1) else rs[k])
      invariant forall k :: i <= k < |r| ==> r[k] == rs[k]
    {
      if r[i].kind == Zuk {
        r := r[i := r[i].(ticks := -1)];
      }
      i := i + 1;
    }
  }

  // ---------------------------------------------------------------------------
  // Health estimate and the spawn timer

  /**
   * `calculateNpcHp`: the hitpoints a health bar showing `ratio` of `health`
   * segments stands for, out of `maxHp`: the middle of the range of
   * hitpoints that round to that bar (−1 when the bar or maximum is unknown).
   */
  function NpcHp(ratio: int, health: int, maxHp: int): (hp: int)
    ensures ratio < 0 || health <= 0 || maxHp == -1 ==> hp == -1
    ensures ratio == 0 && health > 0 && maxHp != -1 ==> hp == 0
  {
    if ratio < 0 || health <= 0 || maxHp == -1 then -1
    else if ratio == 0 then 0
    else
      var minHealth := if health > 1 && ratio > 1 then JavaDiv(maxHp * (ratio - 1) + health - 2, health - 1) else 1;
      var maxHealth :=
        if health > 1 then Min(JavaDiv(maxHp * ratio - 1, health - 1), maxHp)
        else maxHp;
      JavaDiv(minHealth + maxHealth + 1, 2)
  }

  /** A bar that is partly full stands for between 1 and `maxHp` hitpoints. */
  lemma NpcHpBounds(ratio: int, health: int, maxHp: int)
    requires 1 <= ratio <= health && maxHp >= 1
    ensures 1 <= NpcHp(ratio, health, maxHp) <= maxHp
  {
    if health > 1 {
      var h := health - 1;
      var minHealth := 1;
      if ratio > 1 {
        var a := maxHp * (ratio - 1) + health - 2;
        MulMono(1, ratio - 1, maxHp);
        MulMono(ratio - 1, h, maxHp);
        DivBetween(a, h, 1, maxHp);
        minHealth := a / h;
        assert JavaDiv(a, h) == minHealth;
      }
      var c := maxHp * ratio - 1;
      MulMono(1, ratio, maxHp);
      MulMono(1, h, c);
      DivBetween(c, h, 0, c);
      var maxHealth := Min(c / h, maxHp);
      assert JavaDiv(c, h) == c / h;
      assert 0 <= maxHealth <= maxHp;
      assert 1 <= minHealth <= maxHp;
      assert NpcHp(ratio, health, maxHp) == JavaDiv(minHealth + maxHealth + 1, 2);
    }
  }

  /** A full bar of more than one segment stands for exactly `maxHp`. */
  lemma NpcHpFull(health: int, maxHp: int)
    requires health > 1 && maxHp >= 1
    ensures NpcHp(health, health, maxHp) == maxHp
  {
    var h := health - 1;
    var a := maxHp * (health - 1) + health - 2;
    assert maxHp * (health - 1) == maxHp * h;
    assert (maxHp + 1) * h == maxHp * h + h;
    DivBetween(a, h, maxHp, maxHp);
    var minHealth := JavaDiv(a, h);
    assert minHealth == maxHp;
    var c := maxHp * health - 1;
    assert maxHp * health == maxHp * h + maxHp;
    MulMono(1, h, c + 1);
    assert (c + 1) * h == h * (c + 1);
    DivBetween(c, h, maxHp, c);
    var maxHealth := Min(JavaDiv(c, h), maxHp);
    assert maxHealth == maxHp;
    assert NpcHp(health, health, maxHp) == JavaDiv(minHealth + maxHealth + 1, 2);
  }

  /** A one-segment bar with anything on it stands for half the maximum, rounded up, plus a half. */
  lemma NpcHpSingleSegment(ratio: int, maxHp: int)
    requires ratio > 0 && maxHp != -1
    ensures NpcHp(ratio, 1, maxHp) == JavaDiv(maxHp + 2, 2)
  {
  }

  /** Zuk's maximum hitpoints as the spawn timer reads them. */
  const ZukMaxHp: int := 1200
  /** At or above this, and below `PauseHp`, a running spawn timer is paused. */
  const ResumeHp: int := 480
  const PauseHp: int := 600

  datatype TimerAction = Keep | Pause | Resume

  /**
   * `calculateSpawnTimerInfobox`: with Zuk present outside the final phase
   * and a timer shown, a running timer pauses while Zuk's estimated
   * hitpoints are in [480, 600), and a paused one resumes below 480.
   */
  function SpawnTimerAction(zukPresent: bool, finalPhase: bool, timerPresent: bool, running: bool, ratio: int, scale: int): (r: TimerAction)
    ensures var hp := NpcHp(ratio, scale, ZukMaxHp);
      && (r == Pause <==> zukPresent && !finalPhase && timerPresent && running && ResumeHp <= hp < PauseHp)
      && (r == Resume <==> zukPresent && !finalPhase && timerPresent && !running && 0 < hp < ResumeHp)
  {
    if !zukPresent || finalPhase || !timerPresent then Keep
    else
      var hp := NpcHp(ratio, scale, ZukMaxHp);
      if hp <= 0 then Keep
      else if running then (if ResumeHp <= hp < PauseHp then Pause else Keep)
      else if hp < ResumeHp then Resume else Keep
  }

  /** The timer's running flag after the action. */
  function RunningAfter(running: bool, a: TimerAction): bool
  {
    match a
    case Keep => running
    case Pause => false
    case Resume => true
  }

  /**
   * The hysteresis settles at once: a second reading of the same health
   * bar changes nothing, so the timer never flips back and forth on one
   * reading; and a paused timer stays paused for any reading at 480 or above.
   */
  lemma SpawnTimerSettles(zukPresent: bool, finalPhase: bool, timerPresent: bool, running: bool, ratio: int, scale: int)
    ensures var a := SpawnTimerAction(zukPresent, finalPhase, timerPresent, running, ratio, scale);
      SpawnTimerAction(zukPresent, finalPhase, timerPresent, RunningAfter(running, a), ratio, scale) == Keep
    ensures NpcHp(ratio, scale, ZukMaxHp) >= ResumeHp ==>
      !RunningAfter(false, SpawnTimerAction(zukPresent, finalPhase, timerPresent, false, ratio, scale))
  {
  }

  // ---------------------------------------------------------------------------
  // Wave number

  /**
   * `onChatMessage` on a game message: a message containing "Wave:" sets
   * the wave number to the integer between the first ": " and the
   * following '<'. `None` when the message is not a wave message, and also
   * when Java would throw (no '<', or no parseable integer): either way the
   * wave number is left as it was.
   */
  function ParseWave(msg: string): (r: Option<int>)
    ensures r.Some? ==> Contains(msg, "Wave:") && -INT_MAX - 1 <= r.value <= INT_MAX
  {
    if !Contains(msg, "Wave:") then None
    else
      var start := IndexOf(msg, ": ") + 2;
      if start > |msg| then None
      else
        var rest := msg[start..];
        var lt := IndexOf(rest, "<");
        if lt < 0 then None else ParseJavaInt(rest[..lt])
  }

  /** The game's wave announcement is read back to the wave number it announces. */
  lemma {:induction false} ParseWaveAnnouncement(pre: string, n: nat, tail: string)
    requires n <= INT_MAX
    requires forall k :: 0 <= k < |pre| ==> pre[k] != ':'
    ensures ParseWave(pre + "Wave: " + NatToString(n) + "<" + tail) == Some(n)
  {
    var digits := NatToString(n);
    NatToStringDigits(n);
    var msg := pre + "Wave: " + digits + "<" + tail;
    var p := |pre|;
    AnnouncementPrefix(pre, digits + "<" + tail);
    assert msg == pre + "Wave: " + (digits + "<" + tail);
    var rest := msg[p + 6..];
    assert rest == digits + "<" + tail;
    DigitsThenLt(digits, tail);
    assert rest[..|digits|] == digits;
    ParseIntToString(n);
  }

  /** In `pre + "Wave: " + after`, with no colon in `pre`, the message is a wave message and its first ": " follows "Wave". */
  lemma AnnouncementPrefix(pre: string, after: string)
    requires forall k :: 0 <= k < |pre| ==> pre[k] != ':'
    ensures Contains(pre + "Wave: " + after, "Wave:")
    ensures IndexOf(pre + "Wave: " + after, ": ") == |pre| + 4
  {
    var msg := pre + "Wave: " + after;
    var p := |pre|;
    assert OccursAt(msg, "Wave:", p) by {
      assert msg[p..p + 5] == "Wave:";
    }
    assert OccursAt(msg, ": ", p + 4) by {
      assert msg[p + 4..p + 6] == ": ";
    }
    forall j | 0 <= j < p + 4
      ensures !OccursAt(msg, ": ", j)
    {
      assert msg[j] != ':' by {
        if j < p {
          assert msg[j] == pre[j];
        } else {
          assert msg[j] == "Wave: "[j - p];
        }
      }
      assert msg[j..j + 2][0] == msg[j];
    }
    IndexOfIs(msg, ": ", p + 4);
  }

  /** The first '<' after a run of digits is the one that ends it. */
  lemma DigitsThenLt(digits: string, tail: string)
    requires AllDigits(digits)
    ensures IndexOf(digits + "<" + tail, "<") == |digits|
  {
    var rest := digits + "<" + tail;
    assert OccursAt(rest, "<", |digits|) by {
      assert rest[|digits|..|digits| + 1] == "<";
    }
    forall j | 0 <= j < |digits|
      ensures !OccursAt(rest, "<", j)
    {
      assert rest[j] == digits[j];
      assert rest[j..j + 1][0] == rest[j];
    }
    IndexOfIs(rest, "<", |digits|);
  }

  /** `getNextWaveNumber`: the wave after the current one; unknown (−1) before the first wave is known and after the last wave, 69. */
  function NextWaveNumber(wave: int): (r: int)
    ensures r == -1 || r == wave + 1
    ensures r == -1 <==> wave == -1 || wave == 69 || wave == -2
  {
    if wave == -1 || wave == 69 then -1 else wave + 1
  }

  /** After the announcement of wave `n` (1 to 68) the next wave is `n + 1`; after wave 69 there is none. */
  lemma NextAfterAnnouncement(pre: string, n: nat, tail: string)
    requires 1 <= n <= 69
    requires forall k :: 0 <= k < |pre| ==> pre[k] != ':'
    ensures ParseWave(pre + "Wave: " + NatToString(n) + "<" + tail).Some?
    ensures NextWaveNumber(ParseWave(pre + "Wave: " + NatToString(n) + "<" + tail).value) == (if n == 69 then -1 else n + 1)
  {
    ParseWaveAnnouncement(pre, n, tail);
  }

  // ---------------------------------------------------------------------------
  // Central nibbler

  /** How many nibblers of `rs` have their area within one tile of `n`'s area. */
  function NearCount(rs: seq<Npc>, n: Npc, areaDistance: (Npc, Npc) -> int): nat
  {
    if |rs| == 0 then 0
    else
      var c := rs[|rs| - 1];
      NearCount(rs[..|rs| - 1], n, areaDistance) + (if c.kind == Nibbler && areaDistance(c, n) <= 1 then 1 else 0)
  }

  /** The strict order of candidates: more nibblers nearby, then nearer to the player. */
  predicate Beats(amount1: int, dist1: int, amount2: int, dist2: int)
  {
    amount1 > amount2 || (amount1 == amount2 && dist1 < dist2)
  }

  /** Candidate `i` strictly beats candidate `j`. */
  ghost predicate BeatsAt(rs: seq<Npc>, areaDistance: (Npc, Npc) -> int, playerDistance: Npc -> int, i: int, j: int)
    requires 0 <= i < |rs| && 0 <= j < |rs|
  {
    Beats(NearCount(rs, rs[i], areaDistance), playerDistance(rs[i]), NearCount(rs, rs[j], areaDistance), playerDistance(rs[j]))
  }

  /** Candidate `i` beats the starting point: no nibbler nearby, 999 tiles away. */
  ghost predicate BeatsBaseline(rs: seq<Npc>, areaDistance: (Npc, Npc) -> int, playerDistance: Npc -> int, i: int)
    requires 0 <= i < |rs|
  {
    Beats(NearCount(rs, rs[i], areaDistance), playerDistance(rs[i]), 0, 999)
  }

  /**
   * Roster entry `i` is the nibbler `calculateCentralNibbler` settles on: a
   * nibbler beating the baseline and every nibbler before it, and beaten by
   * no nibbler after it.
   */
  ghost predicate IsCentralAt(roster: seq<Npc>, areaDistance: (Npc, Npc) -> int, playerDistance: Npc -> int, i: int)
  {
    0 <= i < |roster| && roster[i].kind == Nibbler && BeatsBaseline(roster, areaDistance, playerDistance, i) &&
    (forall j :: 0 <= j < i && roster[j].kind == Nibbler ==> BeatsAt(roster, areaDistance, playerDistance, i, j)) &&
    (forall j :: i < j < |roster| && roster[j].kind == Nibbler ==> !BeatsAt(roster, areaDistance, playerDistance, j, i))
  }

  /** The central nibbler remembered for the roster: none exactly when no nibbler beats the baseline, otherwise the central entry. */
  ghost predicate CentralOf(roster: seq<Npc>, areaDistance: (Npc, Npc) -> int, playerDistance: Npc -> int, c: Option<Npc>)
  {
    (c.None? <==> forall i :: 0 <= i < |roster| && roster[i].kind == Nibbler ==> !BeatsBaseline(roster, areaDistance, playerDistance, i)) &&
    (c.Some? ==> exists i :: IsCentralAt(roster, areaDistance, playerDistance, i) && roster[i] == c.value)
  }

  /**
   * `calculateCentralNibbler`: the index of the nibbler with the most
   * nibblers in or next to its area (itself included when the host says so),
   * ties going to the one nearest the player, further ties to the earliest
   * in the roster; none when no nibbler beats the baseline of none nearby
   * at 999 tiles.
   */
  method CentralNibbler(roster: seq<Npc>, areaDistance: (Npc, Npc) -> int, playerDistance: Npc -> int)
    returns (best: Option<nat>)
    ensures best.None? <==>
      forall i :: 0 <= i < |roster| && roster[i].kind == Nibbler ==> !BeatsBaseline(roster, areaDistance, playerDistance, i)
    ensures best.Some? ==> best.value < |roster| && roster[best.value].kind == Nibbler
    ensures best.Some? ==> BeatsBaseline(roster, areaDistance, playerDistance, best.value)
    ensures best.Some? ==> forall j :: 0 <= j < best.value && roster[j].kind == Nibbler ==>
      BeatsAt(roster, areaDistance, playerDistance, best.value, j)
    ensures best.Some? ==> forall j :: best.value < j < |roster| && roster[j].kind == Nibbler ==>
      !BeatsAt(roster, areaDistance, playerDistance, j, best.value)
  {
    best := None;
    var bestAmount := 0;
    var bestDistance := 999;
    var i := 0;
    while i < |roster|
      invariant 0 <= i <= |roster|
      invariant best.None? ==> bestAmount == 0 && bestDistance == 999
      invariant best.None? ==> forall j :: 0 <= j < i && roster[j].kind == Nibbler ==>
        !BeatsBaseline(roster, areaDistance, playerDistance, j)
      invariant best.Some? ==> best.value < i && roster[best.value].kind == Nibbler
      invariant best.Some? ==> (bestAmount == NearCount(roster, roster[best.value], areaDistance) &&
        bestDistance == playerDistance(roster[best.value]))
      invariant best.Some? ==> BeatsBaseline(roster, areaDistance, playerDistance, best.value)
      invariant best.Some? ==> forall j :: 0 <= j < best.value && roster[j].kind == Nibbler ==>
        BeatsAt(roster, areaDistance, playerDistance, best.value, j)
      invariant best.Some? ==> forall j :: best.value < j < i && roster[j].kind == Nibbler ==>
        !BeatsAt(roster, areaDistance, playerDistance, j, best.value)
    {
      var n := roster[i];
      if n.kind == Nibbler {
        var amount := 0;
        var distance := playerDistance(n);
        var k := 0;
        while k < |roster|
          invariant 0 <= k <= |roster|
          invariant amount == NearCount(roster[..k], n, areaDistance)
        {
          assert roster[..k + 1][..k] == roster[..k];
          if roster[k].kind == Nibbler && areaDistance(roster[k], n) <= 1 {
            amount := amount + 1;
          }
          k := k + 1;
        }
        assert roster[..|roster|] == roster;
        if Beats(amount, distance, bestAmount, bestDistance) {
          best := Some(i);
          bestAmount := amount;
          bestDistance := distance;
        }
      }
      i := i + 1;
    }
  }

  // ---------------------------------------------------------------------------
  // Attacks grouped by tick (the enhanced prayer priority)

  /** The prayer-helped monsters of `rs` that attack in exactly `t` ticks (t > 0), in roster order. */
  function AttackersAt(cfg: Config, rs: seq<Npc>, t: int): (r: seq<Npc>)
    ensures forall n :: n in r <==> n in rs && n.ticks == t && t > 0 && IsPrayerHelper(cfg, n.kind)
  {
    if |rs| == 0 then []
    else
      var r' := AttackersAt(cfg, rs[..|rs| - 1], t);
      var n := rs[|rs| - 1];
      assert rs == rs[..|rs| - 1] + [n];
      if n.ticks == t && t > 0 && IsPrayerHelper(cfg, n.kind) then r' + [n] else r'
  }

  /** Which ticks have a group. */
  ghost predicate HasAttackerAt(cfg: Config, rs: seq<Npc>, t: int)
  {
    exists k :: 0 <= k < |rs| && rs[k].ticks == t && t > 0 && IsPrayerHelper(cfg, rs[k].kind)
  }

  /** `byTick` holds exactly the non-empty groups of `rs`. */
  ghost predicate Grouped(cfg: Config, rs: seq<Npc>, byTick: map<int, seq<Npc>>)
  {
    (forall t :: t in byTick <==> HasAttackerAt(cfg, rs, t)) &&
    (forall t :: t in byTick ==> byTick[t] == AttackersAt(cfg, rs, t) && byTick[t] != []) &&
    (forall t :: t !in byTick ==> AttackersAt(cfg, rs, t) == [])
  }

  /** `computeIfAbsent(ticks, new ArrayList).add(n)` for a prayer-helped monster with an upcoming attack. */
  function AddToGroup(cfg: Config, byTick: map<int, seq<Npc>>, n: Npc): map<int, seq<Npc>>
  {
    if n.ticks > 0 && IsPrayerHelper(cfg, n.kind) then
      byTick[n.ticks := (if n.ticks in byTick then byTick[n.ticks] else []) + [n]]
    else byTick
  }

  lemma GroupStep(cfg: Config, rs: seq<Npc>, n: Npc, byTick: map<int, seq<Npc>>)
    requires Grouped(cfg, rs, byTick)
    ensures Grouped(cfg, rs + [n], AddToGroup(cfg, byTick, n))
  {
    forall t {
      AttackerSnoc(cfg, rs, n, t);
    }
  }

  /**
   * The `attacksByTick` map: one entry per tick on which some prayer-helped
   * monster attacks, holding those monsters in roster order.
   */
  method GroupAttacksByTick(cfg: Config, roster: seq<Npc>) returns (byTick: map<int, seq<Npc>>)
    ensures forall t :: t in byTick <==> HasAttackerAt(cfg, roster, t)
    ensures forall t :: t in byTick ==> byTick[t] == AttackersAt(cfg, roster, t) && byTick[t] != []
  {
    byTick := map[];
    var i := 0;
    while i < |roster|
      invariant 0 <= i <= |roster|
      invariant Grouped(cfg, roster[..i], byTick)
    {
      var n := roster[i];
      assert roster[..i + 1] == roster[..i] + [n];
      GroupStep(cfg, roster[..i], n, byTick);
      if n.ticks > 0 && IsPrayerHelper(cfg, n.kind) {
        var group := if n.ticks in byTick then byTick[n.ticks] else [];
        byTick := byTick[n.ticks := group + [n]];
      }
      i := i + 1;
    }
    assert roster[..|roster|] == roster;
  }

  /** One more monster adds itself to its own tick's group and changes no other. */
  lemma AttackerSnoc(cfg: Config, rs: seq<Npc>, n: Npc, t: int)
    ensures HasAttackerAt(cfg, rs + [n], t) <==> HasAttackerAt(cfg, rs, t) || (n.ticks == t && t > 0 && IsPrayerHelper(cfg, n.kind))
    ensures AttackersAt(cfg, rs + [n], t) ==
      if n.ticks == t && t > 0 && IsPrayerHelper(cfg, n.kind) then AttackersAt(cfg, rs, t) + [n] else AttackersAt(cfg, rs, t)
  {
    var rs' := rs + [n];
    assert rs'[..|rs'| - 1] == rs && rs'[|rs'| - 1] == n;
    assert AttackersAt(cfg, rs', t) ==
      if n.ticks == t && t > 0 && IsPrayerHelper(cfg, n.kind) then AttackersAt(cfg, rs, t) + [n] else AttackersAt(cfg, rs, t);
    if HasAttackerAt(cfg, rs, t) {
      var k :| 0 <= k < |rs| && rs[k].ticks == t && t > 0 && IsPrayerHelper(cfg, rs[k].kind);
      assert rs'[k] == rs[k];
    }
    if HasAttackerAt(cfg, rs', t) {
      var k :| 0 <= k < |rs'| && rs'[k].ticks == t && t > 0 && IsPrayerHelper(cfg, rs'[k].kind);
      if k < |rs| {
        assert rs[k] == rs'[k];
      }
    }
  }

  /** Whether tick `t`'s group (which holds `n`) is marked as simultaneous, in the order the loop visits it. */
  ghost predicate AddedFrom(byTick: map<int, seq<Npc>>, threshold: int, t: int, n: Npc)
    requires t in byTick
  {
    // the group itself: more than one member, or a non-empty group within `threshold` ticks later
    (n in byTick[t] &&
      (|byTick[t]| > 1 || exists u :: u in byTick && t < u <= t + threshold && byTick[u] != [])) ||
    // a non-empty group within `threshold` ticks later, brought in by this group
    (byTick[t] != [] && exists u :: u in byTick && t < u <= t + threshold && n in byTick[u])
  }

  /**
   * `calculateEnhancedPrayerPriority`, second half: the monsters marked as
   * attacking simultaneously — every member of a tick group with more than
   * one member, and both groups of any two non-empty groups at most
   * `threshold` ticks apart. The source keeps a list with repeats; the
   * model keeps the set of its members.
   */
  method MarkSimultaneous(byTick: map<int, seq<Npc>>, threshold: int) returns (marked: set<Npc>)
    ensures forall n :: n in marked <==> exists t :: t in byTick && AddedFrom(byTick, threshold, t, n)
  {
    marked := {};
    var left := byTick.Keys;
    while left != {}
      invariant left <= byTick.Keys
      invariant forall n :: n in marked <==> exists t :: t in byTick && t !in left && AddedFrom(byTick, threshold, t, n)
      decreases left
    {
      NonEmptyHasInt(left);
      var t :| t in left;
      var group := byTick[t];
      var add: set<Npc> := {};
      if |group| > 1 {
        add := add + set n | n in group;
      }
      var i := 1;
      while i <= threshold
        invariant 1 <= i <= (if threshold >= 1 then threshold + 1 else 1)
        invariant forall n :: n in add <==>
          (n in group && (|group| > 1 || exists u :: u in byTick && t < u < t + i && byTick[u] != [])) ||
          (group != [] && exists u :: u in byTick && t < u < t + i && n in byTick[u])
      {
        if t + i in byTick && byTick[t + i] != [] {
          var near := byTick[t + i];
          if |group| > 0 {
            add := add + (set n | n in group) + (set n | n in near);
          }
        }
        i := i + 1;
      }
      assert forall n :: n in add <==> AddedFrom(byTick, threshold, t, n);
      marked := marked + add;
      left := left - {t};
    }
  }

  /**
   * The same marking, stated without the loop's direction: a monster is
   * marked exactly when its tick group has several members, or another
   * non-empty group lies at most `threshold` ticks before or after it.
   */
  lemma MarkedSymmetric(byTick: map<int, seq<Npc>>, threshold: int, n: Npc)
    ensures (exists t :: t in byTick && AddedFrom(byTick, threshold, t, n)) <==>
      exists t :: t in byTick && n in byTick[t] &&
        (|byTick[t]| > 1 || exists u :: u in byTick && u != t && t - threshold <= u <= t + threshold && byTick[u] != [])
  {
    if exists t :: t in byTick && AddedFrom(byTick, threshold, t, n) {
      var t :| t in byTick && AddedFrom(byTick, threshold, t, n);
      if !(n in byTick[t] && (|byTick[t]| > 1 || exists u :: u in byTick && t < u <= t + threshold && byTick[u] != [])) {
        var u :| u in byTick && t < u <= t + threshold && n in byTick[u];
        assert u in byTick && n in byTick[u] && t in byTick && t != u && u - threshold <= t <= u + threshold && byTick[t] != [];
      }
    }
    if exists t :: t in byTick && n in byTick[t] &&
        (|byTick[t]| > 1 || exists u :: u in byTick && u != t && t - threshold <= u <= t + threshold && byTick[u] != []) {
      var t :| t in byTick && n in byTick[t] &&
        (|byTick[t]| > 1 || exists u :: u in byTick && u != t && t - threshold <= u <= t + threshold && byTick[u] != []);
      if |byTick[t]| <= 1 {
        var u :| u in byTick && u != t && t - threshold <= u <= t + threshold && byTick[u] != [];
        if u < t {
          assert AddedFrom(byTick, threshold, u, n);
        } else {
          assert AddedFrom(byTick, threshold, t, n);
        }
      } else {
        assert AddedFrom(byTick, threshold, t, n);
      }
    }
  }

  /** `multipleNPCsAttackingThisTick`: more than one prayer-helped monster attacks on the next tick. */
  predicate SeveralNextTick(byTick: map<int, seq<Npc>>)
  {
    1 in byTick && |byTick[1]| > 1
  }

  /** The obstacles are exactly the tiles of the NPC areas. */
  ghost predicate CoversAreas(obstacles: seq<Tile>, areas: seq<seq<Tile>>)
  {
    forall t :: t in obstacles <==> exists i :: 0 <= i < |areas| && t in areas[i]
  }

  /** `calculateObstacles`: every tile covered by some NPC's area, area by area. */
  method CollectObstacles(areas: seq<seq<Tile>>) returns (obstacles: seq<Tile>)
    ensures CoversAreas(obstacles, areas)
  {
    obstacles := [];
    var i := 0;
    while i < |areas|
      invariant 0 <= i <= |areas|
      invariant forall t :: t in obstacles <==> exists j :: 0 <= j < i && t in areas[j]
    {
      obstacles := obstacles + areas[i];
      i := i + 1;
    }
  }
}
