/**
 * The threat window: for every future tick, the attack kinds that land on it
 * and, per kind, the smallest (most urgent) priority of a monster attacking
 * with it. It is rebuilt each game tick from the roster, after every roster
 * entry's attack clock has been advanced, and the closest attack is read off
 * it as the lexicographic minimum of (tick, priority).
 */
module ThreatWindow {
  import opened InfernoTypes
  import opened Settings

  /** Attack kind → smallest priority of a monster landing that kind on one tick. */
  type AttackPriorities = map<Attack, int>

  /** Tick-till-attack → the attacks landing on that tick. */
  type Upcoming = map<int, AttackPriorities>

  /** Nothing of `m` is lost in `r`, and no priority went up. */
  ghost predicate NoneRaised(m: Upcoming, r: Upcoming)
  {
    forall t, a :: t in m && a in m[t] ==> t in r && a in r[t] && r[t][a] <= m[t][a]
  }

  /** `computeIfAbsent(t, new HashMap)`: make sure tick `t` has an entry. */
  function Ensure(m: Upcoming, t: int): (r: Upcoming)
    ensures t in r && r.Keys == m.Keys + {t}
    ensures forall k :: k in m ==> r[k] == m[k]
    ensures t !in m ==> r[t] == map[]
  {
    if t in m then m else m[t := map[]]
  }

  /** Every entry of `r` is an unchanged entry of `m`, or an entry of tick `t0` of one of the `kinds` holding `p`. */
  ghost predicate KeptOrAdded(m: Upcoming, r: Upcoming, t0: int, kinds: set<Attack>, p: int)
  {
    forall t, a :: t in r && a in r[t] ==> KeptOrAddedAt(m, r, t0, kinds, p, t, a)
  }

  ghost predicate KeptOrAddedAt(m: Upcoming, r: Upcoming, t0: int, kinds: set<Attack>, p: int, t: int, a: Attack)
    requires t in r && a in r[t]
  {
    (t in m && a in m[t] && r[t][a] == m[t][a]) || (t == t0 && a in kinds && r[t][a] == p)
  }

  /**
   * Record kind `a` with priority `p` on tick `t`: the slot keeps the smaller
   * of what it held and `p`.
   */
  function Lower(m: Upcoming, t: int, a: Attack, p: int): (r: Upcoming)
    requires t in m
    ensures r.Keys == m.Keys && r[t].Keys == m[t].Keys + {a}
    ensures r[t][a] == (if a in m[t] then Min(m[t][a], p) else p)
    ensures forall b :: b in m[t] && b != a ==> r[t][b] == m[t][b]
    ensures forall k :: k in m && k != t ==> r[k] == m[k]
    ensures NoneRaised(m, r)
    ensures KeptOrAdded(m, r, t, {a}, p)
  {
    if a !in m[t] || m[t][a] > p then m[t := m[t][a := p]] else m
  }

  /** The detection tick holds magic or ranged at priority `p` or below. */
  predicate DetectCovered(d: AttackPriorities, p: int)
  {
    (Magic in d && d[Magic] <= p) || (Ranged in d && d[Ranged] <= p)
  }

  /**
   * A blob whose attack lands on tick `t` decides its style on tick `t − 3`.
   * The detection tick receives a magic or ranged entry with the blob's
   * priority `p`, chosen in this order: an existing magic entry there is
   * lowered; else an existing ranged entry there is lowered; else, when magic
   * lands on `t` or `t − 4`, ranged is prayed on the detection tick (so the
   * blob commits to magic, which is then prayed anyway); else, when ranged
   * lands on `t` or `t − 4`, magic; otherwise magic.
   */
  function BlobDetect(m: Upcoming, t: int, p: int): (r: Upcoming)
    requires t in m
    ensures r.Keys == m.Keys + {t - 3, t - 4}
    ensures forall k :: k in r && k != t - 3 ==> r[k] == (if k in m then m[k] else map[])
    ensures NoneRaised(m, r)
    ensures DetectCovered(r[t - 3], p)
    ensures KeptOrAdded(m, r, t - 3, {Magic, Ranged}, p)
  {
    var m0 := Ensure(m, t - 3);
    var m1 := Ensure(m0, t - 4);
    var kind := DetectKind(m1[t - 3], m1[t], m1[t - 4]);
    var r := Lower(m1, t - 3, kind, p);
    assert r[t - 3][kind] <= p;
    KeptOrAddedEnsure(m0, t - 4, r, t - 3, {Magic, Ranged}, p);
    KeptOrAddedEnsure(m, t - 3, r, t - 3, {Magic, Ranged}, p);
    NoneRaisedEnsure(m, t - 3, t - 4, r);
    r
  }

  /** The kind prayed on the detection tick, given what lands on it (`d`), on the blob's tick and on the tick before the detection tick. */
  function DetectKind(d: AttackPriorities, onTick: AttackPriorities, before: AttackPriorities): (a: Attack)
    ensures a == Magic || a == Ranged
    ensures Magic in d ==> a == Magic
    ensures Magic !in d && Ranged in d ==> a == Ranged
  {
    if Magic in d then Magic
    else if Ranged in d then Ranged
    else if Magic in onTick || Magic in before then Ranged
    else if Ranged in onTick || Ranged in before then Magic
    else Magic
  }

  lemma NoneRaisedEnsure(m: Upcoming, t0: int, t1: int, r: Upcoming)
    requires NoneRaised(Ensure(Ensure(m, t0), t1), r)
    ensures NoneRaised(m, r)
  {
    var m1 := Ensure(Ensure(m, t0), t1);
    forall t, a | t in m && a in m[t]
      ensures t in r && a in r[t] && r[t][a] <= m[t][a]
    {
      assert m1[t] == m[t];
    }
  }

  /**
   * Which kind the detection tick receives: an entry already there is grouped
   * with (magic before ranged); with neither there, the prayer opposite to the
   * style already landing on the blob's attack tick or the tick before the
   * detection tick, magic by default.
   */
  lemma BlobDetectChoice(m: Upcoming, t: int, p: int)
    requires t in m
    ensures var d := if t - 3 in m then m[t - 3] else map[];
      var r := BlobDetect(m, t, p)[t - 3];
      var around := m[t].Keys + (if t - 4 in m then m[t - 4].Keys else {});
      (Magic in d ==> r == d[Magic := Min(d[Magic], p)]) &&
      (Magic !in d && Ranged in d ==> r == d[Ranged := Min(d[Ranged], p)]) &&
      (Magic !in d && Ranged !in d ==> r == d[(if Magic in around then Ranged else Magic) := p])
  {
    var d := if t - 3 in m then m[t - 3] else map[];
    var r := BlobDetect(m, t, p)[t - 3];
    if Magic in d {
      assert r == d[Magic := Min(d[Magic], p)];
    } else if Ranged in d {
      assert r == d[Ranged := Min(d[Ranged], p)];
    }
  }

  /** The blob detection path: the setting is on, the monster is a blob and its attack is at least four ticks away. */
  predicate Detecting(cfg: Config, n: Npc)
  {
    cfg.indicateBlobDetectionTick && n.kind == Blob && n.ticks >= 4
  }

  /** Whether a monster's attack enters the threat window. */
  predicate Eligible(cfg: Config, n: Npc)
  {
    n.ticks > 0 && IsPrayerHelper(cfg, n.kind) && (n.attack != Unknown || Detecting(cfg, n))
  }

  /** Rangers and mages that are dying are passed over. */
  predicate Skipped(host: Host, n: Npc)
  {
    (n.kind == Ranger || n.kind == Mage) && host.isDead(n.id)
  }

  /** Whether monster `n` could have put priority `p` under kind `a` on tick `t`. */
  ghost predicate Contributes(host: Host, cfg: Config, n: Npc, t: int, a: Attack, p: int)
  {
    !Skipped(host, n) && Eligible(cfg, n) &&
    (if Detecting(cfg, n) then t == n.ticks - 3 && (a == Magic || a == Ranged) && p == host.priority(Blob)
     else t == n.ticks && a == n.attack && p == host.priority(n.kind))
  }

  /** What recording monster `n` guarantees about the window: its attack is there, at its priority or a smaller one. */
  ghost predicate Covers(host: Host, cfg: Config, m: Upcoming, n: Npc)
  {
    Skipped(host, n) || !Eligible(cfg, n) ||
    (if Detecting(cfg, n) then n.ticks - 3 in m && DetectCovered(m[n.ticks - 3], host.priority(Blob))
     else n.ticks in m && n.attack in m[n.ticks] && m[n.ticks][n.attack] <= host.priority(n.kind))
  }

  /** Record one monster's attack in the window. */
  function Record(host: Host, cfg: Config, m: Upcoming, n: Npc): (r: Upcoming)
    ensures NoneRaised(m, r)
    ensures Covers(host, cfg, r, n)
  {
    if Skipped(host, n) || !Eligible(cfg, n) then m
    else
      var m1 := Ensure(m, n.ticks);
      if Detecting(cfg, n) then BlobDetect(m1, n.ticks, host.priority(Blob))
      else Lower(m1, n.ticks, n.attack, host.priority(n.kind))
  }

  lemma KeptOrAddedEnsure(m: Upcoming, t: int, r: Upcoming, t0: int, kinds: set<Attack>, p: int)
    requires KeptOrAdded(Ensure(m, t), r, t0, kinds, p)
    ensures KeptOrAdded(m, r, t0, kinds, p)
  {
    var m1 := Ensure(m, t);
    assert KeptOrAdded(m1, r, t0, kinds, p);
    forall k, a | k in r && a in r[k] && !(k == t0 && a in kinds && r[k][a] == p)
      ensures k in m && a in m[k] && r[k][a] == m[k][a]
    {
      assert KeptOrAddedAt(m1, r, t0, kinds, p, k, a);
    }
  }

  /** Recording `n` only keeps entries or adds ones `n` contributes. */
  lemma RecordOrigin(host: Host, cfg: Config, m: Upcoming, n: Npc)
    ensures var r := Record(host, cfg, m, n);
      forall t, a :: t in r && a in r[t] ==>
        (t in m && a in m[t] && r[t][a] == m[t][a]) || Contributes(host, cfg, n, t, a, r[t][a])
  {
    var r := Record(host, cfg, m, n);
    if !Skipped(host, n) && Eligible(cfg, n) {
      var m1 := Ensure(m, n.ticks);
      var t0, kinds, p;
      if Detecting(cfg, n) {
        t0, kinds, p := n.ticks - 3, {Magic, Ranged}, host.priority(Blob);
        assert r == BlobDetect(m1, n.ticks, p);
      } else {
        t0, kinds, p := n.ticks, {n.attack}, host.priority(n.kind);
        assert r == Lower(m1, n.ticks, n.attack, p);
      }
      KeptOrAddedEnsure(m, n.ticks, r, t0, kinds, p);
      forall t, a | t in r && a in r[t] && !(t in m && a in m[t] && r[t][a] == m[t][a])
        ensures Contributes(host, cfg, n, t, a, r[t][a])
      {
        assert t == t0 && a in kinds && r[t][a] == p;
      }
    }
  }

  /** Every entry of the window was put there by some monster of `rs`, with exactly that monster's priority. */
  ghost predicate Sound(host: Host, cfg: Config, rs: seq<Npc>, m: Upcoming)
  {
    forall t, a :: t in m && a in m[t] ==> exists i :: 0 <= i < |rs| && Contributes(host, cfg, rs[i], t, a, m[t][a])
  }

  /** The window built from an empty map by recording every monster of `rs` in order. */
  function RecordAll(host: Host, cfg: Config, rs: seq<Npc>): Upcoming
  {
    if |rs| == 0 then map[] else Record(host, cfg, RecordAll(host, cfg, rs[..|rs| - 1]), rs[|rs| - 1])
  }

  /** Every monster's attack is in the window, at its priority or a more urgent one. */
  lemma {:induction false} RecordAllComplete(host: Host, cfg: Config, rs: seq<Npc>)
    ensures forall i :: 0 <= i < |rs| ==> Covers(host, cfg, RecordAll(host, cfg, rs), rs[i])
  {
    if |rs| > 0 {
      var pre := rs[..|rs| - 1];
      RecordAllComplete(host, cfg, pre);
      var m := RecordAll(host, cfg, pre);
      var r := RecordAll(host, cfg, rs);
      forall i | 0 <= i < |rs| - 1
        ensures Covers(host, cfg, r, rs[i])
      {
        assert rs[i] == pre[i];
        CoversKept(host, cfg, m, r, rs[i]);
      }
    }
  }

  lemma CoversKept(host: Host, cfg: Config, m: Upcoming, r: Upcoming, n: Npc)
    requires NoneRaised(m, r)
    requires Covers(host, cfg, m, n)
    ensures Covers(host, cfg, r, n)
  {
  }

  /** Every entry of the window was put there by some monster of `rs`, with exactly that monster's priority. */
  lemma {:induction false} RecordAllSound(host: Host, cfg: Config, rs: seq<Npc>)
    ensures Sound(host, cfg, rs, RecordAll(host, cfg, rs))
  {
    if |rs| > 0 {
      var pre := rs[..|rs| - 1];
      RecordAllSound(host, cfg, pre);
      var m := RecordAll(host, cfg, pre);
      var r := RecordAll(host, cfg, rs);
      RecordOrigin(host, cfg, m, rs[|rs| - 1]);
      forall t, a | t in r && a in r[t]
        ensures exists i :: 0 <= i < |rs| && Contributes(host, cfg, rs[i], t, a, r[t][a])
      {
        if t in m && a in m[t] && r[t][a] == m[t][a] {
          var i :| 0 <= i < |pre| && Contributes(host, cfg, pre[i], t, a, m[t][a]);
          assert rs[i] == pre[i];
        } else {
          assert Contributes(host, cfg, rs[|rs| - 1], t, a, r[t][a]);
        }
      }
    }
  }

  /**
   * Advance one monster's attack clock. When Zuk is met while the shield
   * corner counter is −1 (the shield has just started moving), Zuk's timer is
   * set to 12 ticks with an unknown attack, and the counter becomes 0.
   */
  function Advance(host: Host, finalPhase: bool, ticksSinceFinalPhase: int, n: Npc, corner: int): (r: (Npc, int))
    ensures r.0.id == n.id && r.0.kind == n.kind
    ensures r.1 == (if n.kind == Zuk && corner == -1 then 0 else corner)
    ensures n.kind == Zuk && corner == -1 ==> r.0.ticks == 12 && r.0.attack == Unknown
  {
    var c := host.clock(n, finalPhase, ticksSinceFinalPhase);
    var n1 := n.(ticks := c.ticks, attack := c.attack);
    if n1.kind == Zuk && corner == -1 then (n1.(ticks := 12, attack := Unknown), 0) else (n1, corner)
  }

  /** Advance every monster of `rs` in order, threading the shield corner counter. */
  function AdvanceAll(host: Host, finalPhase: bool, ticksSinceFinalPhase: int, rs: seq<Npc>, corner: int): (r: (seq<Npc>, int))
    ensures |r.0| == |rs|
    ensures forall i :: 0 <= i < |rs| ==> r.0[i].id == rs[i].id && r.0[i].kind == rs[i].kind
  {
    if |rs| == 0 then ([], corner)
    else
      var s := AdvanceAll(host, finalPhase, ticksSinceFinalPhase, rs[..|rs| - 1], corner);
      var step := Advance(host, finalPhase, ticksSinceFinalPhase, rs[|rs| - 1], s.1);
      (s.0 + [step.0], step.1)
  }

  ghost predicate HasZuk(rs: seq<Npc>)
  {
    exists i :: 0 <= i < |rs| && rs[i].kind == Zuk
  }

  /** The corner counter moves from −1 to 0 exactly when Zuk is on the roster; otherwise it is untouched. */
  lemma {:induction false} AdvanceAllCorner(host: Host, finalPhase: bool, ticksSinceFinalPhase: int, rs: seq<Npc>, corner: int)
    ensures AdvanceAll(host, finalPhase, ticksSinceFinalPhase, rs, corner).1 == (if corner == -1 && HasZuk(rs) then 0 else corner)
  {
    if |rs| > 0 {
      var pre := rs[..|rs| - 1];
      AdvanceAllCorner(host, finalPhase, ticksSinceFinalPhase, pre, corner);
      if HasZuk(pre) {
        var i :| 0 <= i < |pre| && pre[i].kind == Zuk;
        assert rs[i].kind == Zuk;
      }
      if HasZuk(rs) && !HasZuk(pre) {
        var i :| 0 <= i < |rs| && rs[i].kind == Zuk;
        assert i == |rs| - 1;
      }
    }
  }

  /**
   * `calculateUpcomingAttacks`: advance every monster's clock in roster order
   * and record its attack in a window that starts empty.
   */
  method CalculateUpcomingAttacks(host: Host, cfg: Config, finalPhase: bool, ticksSinceFinalPhase: int, roster: seq<Npc>, corner: int)
    returns (roster': seq<Npc>, upcoming: Upcoming, corner': int)
    ensures (roster', corner') == AdvanceAll(host, finalPhase, ticksSinceFinalPhase, roster, corner)
    ensures upcoming == RecordAll(host, cfg, roster')
  {
    roster' := [];
    upcoming := map[];
    corner' := corner;
    var i := 0;
    while i < |roster|
      invariant 0 <= i <= |roster|
      invariant (roster', corner') == AdvanceAll(host, finalPhase, ticksSinceFinalPhase, roster[..i], corner)
      invariant upcoming == RecordAll(host, cfg, roster')
    {
      assert roster[..i + 1] == roster[..i] + [roster[i]];
      AdvanceAllSnoc(host, finalPhase, ticksSinceFinalPhase, roster[..i], roster[i], corner);
      var step := Advance(host, finalPhase, ticksSinceFinalPhase, roster[i], corner');
      RecordAllSnoc(host, cfg, roster', step.0);
      roster', corner' := roster' + [step.0], step.1;
      upcoming := Record(host, cfg, upcoming, step.0);
      i := i + 1;
    }
    assert roster[..|roster|] == roster;
  }

  /** Advancing one more monster extends the advanced roster by that monster's step. */
  lemma AdvanceAllSnoc(host: Host, finalPhase: bool, ticksSinceFinalPhase: int, rs: seq<Npc>, n: Npc, corner: int)
    ensures var s := AdvanceAll(host, finalPhase, ticksSinceFinalPhase, rs, corner);
      var step := Advance(host, finalPhase, ticksSinceFinalPhase, n, s.1);
      AdvanceAll(host, finalPhase, ticksSinceFinalPhase, rs + [n], corner) == (s.0 + [step.0], step.1)
  {
    assert (rs + [n])[..|rs|] == rs;
  }

  /** Recording one more monster records it in the window of the others. */
  lemma RecordAllSnoc(host: Host, cfg: Config, rs: seq<Npc>, n: Npc)
    ensures RecordAll(host, cfg, rs + [n]) == Record(host, cfg, RecordAll(host, cfg, rs), n)
  {
    assert (rs + [n])[..|rs|] == rs;
  }

  /** Lexicographic order on (tick, priority). */
  predicate Before(t1: int, p1: int, t2: int, p2: int)
  {
    t1 < t2 || (t1 == t2 && p1 < p2)
  }

  /** Whether the window holds some attack ahead of (999, 999), the search's starting bound. */
  ghost predicate HasCandidate(m: Upcoming)
  {
    exists t, a :: t in m && a in m[t] && Before(t, m[t][a], 999, 999)
  }

  /** Kind `a` lands on tick `t` and no entry of the window comes before it. */
  ghost predicate IsClosest(m: Upcoming, t: int, a: Attack)
  {
    t in m && a in m[t] && Before(t, m[t][a], 999, 999) &&
    forall t', a' :: t' in m && a' in m[t'] ==> !Before(t', m[t'][a'], t, m[t][a])
  }

  /**
   * `calculateClosestAttack`: the attack kind with the lexicographically
   * smallest (tick, priority), searched only when the prayer display shows
   * the prayer tab. Ticks and kinds are visited in no fixed order; among
   * equal (tick, priority) the first visited wins.
   */
  method ClosestAttack(mode: PrayerDisplayMode, m: Upcoming) returns (closest: Option<Attack>)
    ensures mode == Bottom ==> closest == None
    ensures mode != Bottom ==> (closest.Some? <==> HasCandidate(m))
    ensures closest.Some? ==> exists t :: IsClosest(m, t, closest.value)
  {
    closest := None;
    if mode != PrayerTab && mode != Both {
      return;
    }
    var closestTick, closestPriority := 999, 999;
    var ticksLeft := m.Keys;
    while ticksLeft != {}
      invariant ticksLeft <= m.Keys
      invariant closest.None? ==> closestTick == 999 && closestPriority == 999
      invariant closest.Some? ==> (closestTick in m && closest.value in m[closestTick]
        && m[closestTick][closest.value] == closestPriority && Before(closestTick, closestPriority, 999, 999))
      invariant forall t, a :: t in m && t !in ticksLeft && a in m[t] ==> !Before(t, m[t][a], closestTick, closestPriority)
      decreases |ticksLeft|
    {
      NonEmptyHasInt(ticksLeft);
      var tick :| tick in ticksLeft;
      var attacksLeft := m[tick].Keys;
      while attacksLeft != {}
        invariant attacksLeft <= m[tick].Keys
        invariant closest.None? ==> closestTick == 999 && closestPriority == 999
        invariant closest.Some? ==> (closestTick in m && closest.value in m[closestTick]
          && m[closestTick][closest.value] == closestPriority && Before(closestTick, closestPriority, 999, 999))
        invariant forall t, a :: t in m && t !in ticksLeft && a in m[t] ==> !Before(t, m[t][a], closestTick, closestPriority)
        invariant forall a :: a in m[tick] && a !in attacksLeft ==> !Before(tick, m[tick][a], closestTick, closestPriority)
        decreases |attacksLeft|
      {
        var attack :| attack in attacksLeft;
        var p := m[tick][attack];
        if Before(tick, p, closestTick, closestPriority) {
          closest := Some(attack);
          closestPriority := p;
          closestTick := tick;
        }
        attacksLeft := attacksLeft - {attack};
      }
      ticksLeft := ticksLeft - {tick};
    }
    if closest.Some? {
      assert IsClosest(m, closestTick, closest.value);
    } else {
      assert !HasCandidate(m);
    }
  }
}
