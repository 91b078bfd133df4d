/**
 * Same-tick attack groups, as the NPC overlay and the attack-timer panel
 * find them: the candidate monsters are grouped by their exact
 * ticks-till-attack, and a tick forms a group when at least two of them
 * attack on it and their next attacks call for at least two different
 * protection prayers. Every member maps to its group; the k-th group
 * formed gets colour k mod 8 of an eight-colour palette; a group's priority
 * is the sum of its members' maximum damage.
 *
 * Both overlays share the grouping step; they differ in which monsters are
 * candidates (the NPC overlay also drops dying monsters) and in their damage
 * tables (the panel's has no Zuk case).
 */
module SameTick {
  import opened InfernoTypes
  import PrayerChoice
  import TW = ThreatWindow

  /** `isAttackingNPC`: support monsters and Zuk are never grouped. */
  predicate IsAttackingType(k: NpcType)
    ensures IsAttackingType(k) <==> k == Jad || k == Mage || k == Ranger || k == Meleer || k == Blob || k == Bat
  {
    k != Nibbler && k != HealerJad && k != HealerZuk && k != Zuk
  }

  /** The NPC overlay's candidates: an upcoming attack, not dying, an attacking type. */
  predicate OverlayEligible(host: Host, n: Npc)
  {
    n.ticks > 0 && !host.isDead(n.id) && IsAttackingType(n.kind)
  }

  /** The overlay's candidates, in roster order. */
  function Active(host: Host, rs: seq<Npc>): (r: seq<Npc>)
    ensures forall n :: n in r <==> n in rs && OverlayEligible(host, n)
    ensures |r| <= |rs|
  {
    if |rs| == 0 then []
    else
      var n := rs[|rs| - 1];
      assert rs == rs[..|rs| - 1] + [n];
      if OverlayEligible(host, n) then Active(host, rs[..|rs| - 1]) + [n] else Active(host, rs[..|rs| - 1])
  }

  /** The collecting loop of `findSimultaneousAttackers`. */
  method CollectActive(host: Host, roster: seq<Npc>) returns (active: seq<Npc>)
    ensures active == Active(host, roster)
  {
    active := [];
    var i := 0;
    while i < |roster|
      invariant 0 <= i <= |roster|
      invariant active == Active(host, roster[..i])
    {
      assert roster[..i + 1][..i] == roster[..i];
      if OverlayEligible(host, roster[i]) {
        active := active + [roster[i]];
      }
      i := i + 1;
    }
    assert roster[..|roster|] == roster;
  }

  /** The candidates attacking in exactly `t` ticks, in order. */
  function OnTick(rs: seq<Npc>, t: int): (r: seq<Npc>)
    ensures forall n :: n in r <==> n in rs && n.ticks == t
    ensures |r| <= |rs|
  {
    if |rs| == 0 then []
    else
      var n := rs[|rs| - 1];
      assert rs == rs[..|rs| - 1] + [n];
      if n.ticks == t then OnTick(rs[..|rs| - 1], t) + [n] else OnTick(rs[..|rs| - 1], t)
  }

  /** One more candidate joins its own tick's list and no other. */
  lemma OnTickSnoc(rs: seq<Npc>, n: Npc, t: int)
    ensures OnTick(rs + [n], t) == if n.ticks == t then OnTick(rs, t) + [n] else OnTick(rs, t)
  {
    var rs' := rs + [n];
    assert rs'[..|rs'| - 1] == rs && rs'[|rs'| - 1] == n;
  }

  /** `npcsByTick` as built from `active`: one entry per tick some candidate attacks on, holding those candidates in order. */
  ghost predicate ByTick(active: seq<Npc>, byTick: map<int, seq<Npc>>)
  {
    (forall t :: t in byTick <==> exists n :: n in active && n.ticks == t) &&
    (forall t :: t in byTick ==> byTick[t] == OnTick(active, t))
  }

  /** Every tick's entry is never empty, and a tick with no entry has no candidates. */
  lemma ByTickEntries(active: seq<Npc>, byTick: map<int, seq<Npc>>, t: int)
    requires ByTick(active, byTick)
    ensures t in byTick <==> OnTick(active, t) != []
    ensures t in byTick ==> byTick[t] == OnTick(active, t)
  {
    if OnTick(active, t) != [] {
      assert OnTick(active, t)[0] in OnTick(active, t);
    }
  }

  /** Builds `npcsByTick`. */
  method GroupByTick(active: seq<Npc>) returns (byTick: map<int, seq<Npc>>)
    ensures ByTick(active, byTick)
  {
    byTick := map[];
    var i := 0;
    while i < |active|
      invariant 0 <= i <= |active|
      invariant forall t :: t in byTick <==> exists n :: n in active[..i] && n.ticks == t
      invariant forall t :: t in byTick ==> byTick[t] == OnTick(active[..i], t)
      invariant forall t :: t !in byTick ==> OnTick(active[..i], t) == []
    {
      var n := active[i];
      assert active[..i + 1] == active[..i] + [n];
      forall t {
        OnTickSnoc(active[..i], n, t);
      }
      var list := if n.ticks in byTick then byTick[n.ticks] else [];
      byTick := byTick[n.ticks := list + [n]];
      i := i + 1;
    }
    assert active[..|active|] == active;
  }

  /** The non-null prayers the monsters' next attacks call for. */
  function PrayersOf(prayerOf: Attack -> Option<Prayer>, rs: seq<Npc>): (r: set<Prayer>)
    ensures forall p :: p in r <==> exists n :: n in rs && prayerOf(n.attack) == Some(p)
  {
    if |rs| == 0 then {}
    else
      var n := rs[|rs| - 1];
      assert rs == rs[..|rs| - 1] + [n];
      PrayersOf(prayerOf, rs[..|rs| - 1]) + (if prayerOf(n.attack).Some? then {prayerOf(n.attack).value} else {})
  }

  /** `requiresDifferentPrayers`: the set of non-null prayers has more than one element. */
  method RequiresDifferentPrayers(npcs: seq<Npc>, prayerOf: Attack -> Option<Prayer>) returns (different: bool)
    ensures different <==> |PrayersOf(prayerOf, npcs)| > 1
  {
    var prayers: set<Prayer> := {};
    var i := 0;
    while i < |npcs|
      invariant 0 <= i <= |npcs|
      invariant prayers == PrayersOf(prayerOf, npcs[..i])
    {
      assert npcs[..i + 1][..i] == npcs[..i];
      var p := prayerOf(npcs[i].attack);
      if p.Some? {
        prayers := prayers + {p.value};
      }
      i := i + 1;
    }
    assert npcs[..|npcs|] == npcs;
    different := |prayers| > 1;
  }

  /** Two monsters calling for different non-null prayers make more than one prayer necessary. */
  lemma TwoPrayersNeeded(prayerOf: Attack -> Option<Prayer>, rs: seq<Npc>, i: nat, j: nat)
    requires i < |rs| && j < |rs|
    requires prayerOf(rs[i].attack).Some? && prayerOf(rs[j].attack).Some? && prayerOf(rs[i].attack) != prayerOf(rs[j].attack)
    ensures |PrayersOf(prayerOf, rs)| > 1
  {
    var s := PrayersOf(prayerOf, rs);
    var p, q := prayerOf(rs[i].attack).value, prayerOf(rs[j].attack).value;
    assert rs[i] in rs && rs[j] in rs;
    assert p in s && q in s - {p};
    assert s == (s - {p}) + {p};
  }

  /** More than one prayer is necessary only when two of the monsters call for different non-null prayers. */
  lemma TwoPrayersWitness(prayerOf: Attack -> Option<Prayer>, rs: seq<Npc>) returns (i: nat, j: nat)
    requires |PrayersOf(prayerOf, rs)| > 1
    ensures i < |rs| && j < |rs|
    ensures prayerOf(rs[i].attack).Some? && prayerOf(rs[j].attack).Some? && prayerOf(rs[i].attack) != prayerOf(rs[j].attack)
  {
    var s := PrayersOf(prayerOf, rs);
    NonEmptyHasMember(s);
    var p :| p in s;
    assert s == (s - {p}) + {p};
    NonEmptyHasMember(s - {p});
    var q :| q in s - {p};
    var m :| m in rs && prayerOf(m.attack) == Some(p);
    var n :| n in rs && prayerOf(n.attack) == Some(q);
    i :| i < |rs| && rs[i] == m;
    j :| j < |rs| && rs[j] == n;
  }

  /** The panel's `getMaxDamage`: the same table without a Zuk case, so Zuk falls to the default. */
  function PanelMaxDamage(k: NpcType): (d: int)
    ensures 15 <= d <= 97
    ensures k != Zuk ==> d == PrayerChoice.MaxDamage(k)
  {
    match k
    case Jad => 97
    case Mage => 45
    case Ranger => 40
    case Meleer => 35
    case Bat => 15
    case Blob => 20
    case _ => 30
  }

  /** The two tables differ on Zuk alone (120 against 30), a type neither overlay groups. */
  lemma DamageTablesAgree(k: NpcType)
    ensures PanelMaxDamage(k) == PrayerChoice.MaxDamage(k) <==> k != Zuk
    ensures k == Zuk ==> PrayerChoice.MaxDamage(k) == 120 && PanelMaxDamage(k) == 30 && !IsAttackingType(k)
  {
  }

  /** The summed maximum damage of the monsters. */
  function DamageSum(damage: NpcType -> int, rs: seq<Npc>): int
  {
    if |rs| == 0 then 0 else DamageSum(damage, rs[..|rs| - 1]) + damage(rs[|rs| - 1].kind)
  }

  /** `calculateGroupPriority`: the damage of the members, added up in order. */
  method CalculateGroupPriority(npcs: seq<Npc>, damage: NpcType -> int) returns (total: int)
    ensures total == DamageSum(damage, npcs)
  {
    total := 0;
    var i := 0;
    while i < |npcs|
      invariant 0 <= i <= |npcs|
      invariant total == DamageSum(damage, npcs[..i])
    {
      assert npcs[..i + 1][..i] == npcs[..i];
      total := total + damage(npcs[i].kind);
      i := i + 1;
    }
    assert npcs[..|npcs|] == npcs;
  }

  /** With every member of an attacking type the two tables give a group the same priority. */
  lemma {:induction false} GroupPrioritiesAgree(rs: seq<Npc>)
    requires forall n :: n in rs ==> IsAttackingType(n.kind)
    ensures DamageSum(PanelMaxDamage, rs) == DamageSum(PrayerChoice.MaxDamage, rs)
  {
    if |rs| > 0 {
      assert rs[|rs| - 1] in rs;
      assert forall n :: n in rs[..|rs| - 1] ==> n in rs;
      GroupPrioritiesAgree(rs[..|rs| - 1]);
    }
  }

  /** A formed group: its members in order, the palette index of its colour, its priority and its tick. */
  datatype Group = Group(members: seq<Npc>, colour: nat, priority: int, tick: int)

  /** The palette has eight colours. */
  const PaletteSize: nat := 8

  /** Whether tick `t` forms a group: two or more candidates on it, needing different prayers. */
  predicate Forms(prayerOf: Attack -> Option<Prayer>, active: seq<Npc>, t: int)
  {
    |OnTick(active, t)| >= 2 && |PrayersOf(prayerOf, OnTick(active, t))| > 1
  }

  /** No tick is listed twice. */
  predicate Distinct(ts: seq<int>)
  {
    forall a, b :: 0 <= a < b < |ts| ==> ts[a] != ts[b]
  }

  /** The group formed on tick `t` as the `k`-th group. */
  function GroupAt(active: seq<Npc>, damage: NpcType -> int, t: int, k: nat): Group
  {
    Group(OnTick(active, t), k % PaletteSize, DamageSum(damage, OnTick(active, t)), t)
  }

  /** The groups formed on the ticks `formed`, in that order: every member of each maps to its group. */
  function ResultOf(active: seq<Npc>, damage: NpcType -> int, formed: seq<int>): map<Npc, Group>
  {
    if |formed| == 0 then map[]
    else
      var k := |formed| - 1;
      var g := GroupAt(active, damage, formed[k], k);
      Put(ResultOf(active, damage, formed[..k]), g.members, g)
  }

  /** Every one of `members` mapped to `group`, over `result`. */
  function Put(result: map<Npc, Group>, members: seq<Npc>, group: Group): map<Npc, Group>
  {
    if |members| == 0 then result else Put(result, members[..|members| - 1], group)[members[|members| - 1] := group]
  }

  /** After `Put` the members map to the group, and every other key keeps its entry. */
  lemma {:induction false} PutMeaning(result: map<Npc, Group>, members: seq<Npc>, group: Group)
    ensures var r := Put(result, members, group);
      (forall n :: n in r <==> n in result || n in members) &&
      (forall n :: n in r ==> r[n] == if n in members then group else result[n])
  {
    if |members| > 0 {
      var pre := members[..|members| - 1];
      PutMeaning(result, pre, group);
      assert members == pre + [members[|members| - 1]];
    }
  }

  /** Forming one more group adds its members, mapped to it, over the groups before. */
  lemma ResultOfSnoc(active: seq<Npc>, damage: NpcType -> int, formed: seq<int>, t: int)
    ensures ResultOf(active, damage, formed + [t]) ==
      Put(ResultOf(active, damage, formed), OnTick(active, t), GroupAt(active, damage, t, |formed|))
  {
    assert (formed + [t])[..|formed|] == formed;
  }

  /** `result.put(npc, group)` for every member. */
  method PutAll(result: map<Npc, Group>, members: seq<Npc>, group: Group) returns (r: map<Npc, Group>)
    ensures r == Put(result, members, group)
  {
    r := result;
    var i := 0;
    while i < |members|
      invariant 0 <= i <= |members|
      invariant r == Put(result, members[..i], group)
    {
      assert members[..i + 1][..i] == members[..i];
      r := r[members[i] := group];
      i := i + 1;
    }
    assert members[..|members|] == members;
  }

  /** Which ticks the grouping loop has formed groups on, after visiting `visited`. */
  ghost predicate FormedAmong(prayerOf: Attack -> Option<Prayer>, active: seq<Npc>, visited: set<int>, formed: seq<int>)
  {
    Distinct(formed) &&
    (forall k :: 0 <= k < |formed| ==> formed[k] in visited && Forms(prayerOf, active, formed[k])) &&
    (forall t :: t in visited && Forms(prayerOf, active, t) ==> t in formed)
  }

  /** Visiting a new tick keeps `FormedAmong`, appending the tick exactly when it forms a group. */
  lemma FormedStep(prayerOf: Attack -> Option<Prayer>, active: seq<Npc>, visited: set<int>, formed: seq<int>, t: int)
    requires FormedAmong(prayerOf, active, visited, formed) && t !in visited
    ensures FormedAmong(prayerOf, active, visited + {t}, if Forms(prayerOf, active, t) then formed + [t] else formed)
  {
  }

  /**
   * The grouping step of `findSimultaneousAttackers`: candidates are grouped
   * by tick, and the ticks are visited in the map's own order (any order);
   * each tick that forms a group maps every member to it and takes the next
   * palette colour. `formed` lists the forming ticks in visiting order.
   */
  method FindGroups(active: seq<Npc>, prayerOf: Attack -> Option<Prayer>, damage: NpcType -> int)
    returns (result: map<Npc, Group>, ghost formed: seq<int>)
    ensures result == ResultOf(active, damage, formed)
    ensures Distinct(formed)
    ensures forall t :: t in formed <==> Forms(prayerOf, active, t)
  {
    var byTick := GroupByTick(active);
    result := map[];
    formed := [];
    var colourIndex := 0;
    var left := byTick.Keys;
    ghost var visited: set<int> := {};
    while left != {}
      invariant left <= byTick.Keys
      invariant forall u :: u in visited <==> u in byTick && u !in left
      invariant colourIndex == |formed|
      invariant result == ResultOf(active, damage, formed)
      invariant FormedAmong(prayerOf, active, visited, formed)
      decreases |left|
    {
      NonEmptyHasInt(left);
      var t: int :| t in left;
      var onTick := byTick[t];
      var different := RequiresDifferentPrayers(onTick, prayerOf);
      ByTickEntries(active, byTick, t);
      assert Forms(prayerOf, active, t) <==> |onTick| >= 2 && different;
      FormedStep(prayerOf, active, visited, formed, t);
      if |onTick| >= 2 && different {
        var priority := CalculateGroupPriority(onTick, damage);
        var group := Group(onTick, colourIndex % PaletteSize, priority, t);
        assert group == GroupAt(active, damage, t, |formed|);
        result := PutAll(result, onTick, group);
        ResultOfSnoc(active, damage, formed, t);
        formed := formed + [t];
        colourIndex := colourIndex + 1;
      }
      visited := visited + {t};
      left := left - {t};
    }
    forall t | Forms(prayerOf, active, t)
      ensures t in formed
    {
      ByTickEntries(active, byTick, t);
    }
  }

  /**
   * What the groups mean: exactly the candidates on forming ticks are
   * grouped; each maps to the group of all candidates on its tick, with the
   * summed damage as priority and the colour of its place in the order the
   * groups were formed; and every member of a group maps to that same group.
   */
  lemma {:induction false} ResultOfMeaning(prayerOf: Attack -> Option<Prayer>, active: seq<Npc>, damage: NpcType -> int, formed: seq<int>)
    requires Distinct(formed)
    requires forall t :: t in formed <==> Forms(prayerOf, active, t)
    ensures var r := ResultOf(active, damage, formed);
      (forall n :: n in r <==> n in active && Forms(prayerOf, active, n.ticks)) &&
      (forall k, n :: 0 <= k < |formed| && n in r && n.ticks == formed[k] ==> r[n] == GroupAt(active, damage, formed[k], k)) &&
      (forall n, m :: n in r && m in r[n].members ==> m in r && r[m] == r[n])
  {
    ResultOfShape(active, damage, formed);
    var r := ResultOf(active, damage, formed);
    forall n, m | n in r && m in r[n].members
      ensures m in r && r[m] == r[n]
    {
      var k :| 0 <= k < |formed| && formed[k] == n.ticks;
    }
  }

  /** The shape of `ResultOf` over distinct ticks, by induction on the ticks. */
  lemma {:induction false} ResultOfShape(active: seq<Npc>, damage: NpcType -> int, formed: seq<int>)
    requires Distinct(formed)
    ensures var r := ResultOf(active, damage, formed);
      (forall n :: n in r <==> n in active && n.ticks in formed) &&
      (forall k, n :: 0 <= k < |formed| && n in r && n.ticks == formed[k] ==> r[n] == GroupAt(active, damage, formed[k], k))
  {
    if |formed| > 0 {
      var k0 := |formed| - 1;
      var pre := formed[..k0];
      assert Distinct(pre);
      ResultOfShape(active, damage, pre);
      var t := formed[k0];
      assert forall u :: u in formed <==> u in pre || u == t;
      PutMeaning(ResultOf(active, damage, pre), OnTick(active, t), GroupAt(active, damage, t, k0));
      var r := ResultOf(active, damage, formed);
      forall k, n | 0 <= k < |formed| && n in r && n.ticks == formed[k]
        ensures r[n] == GroupAt(active, damage, formed[k], k)
      {
        if k < k0 {
          assert formed[k] == pre[k] && formed[k] != t;
          assert n !in OnTick(active, t);
        }
      }
    }
  }

  /**
   * The NPC overlay's `findSimultaneousAttackers`: its candidates are the
   * monsters with an upcoming attack that are not dying and of an attacking
   * type, and its damage table is the plugin's own `MaxDamage`.
   */
  method OverlayGroups(host: Host, roster: seq<Npc>) returns (result: map<Npc, Group>, ghost formed: seq<int>)
    ensures result == ResultOf(Active(host, roster), PrayerChoice.MaxDamage, formed)
    ensures Distinct(formed)
    ensures forall t :: t in formed <==> Forms(host.prayerOf, Active(host, roster), t)
  {
    var active := CollectActive(host, roster);
    result, formed := FindGroups(active, host.prayerOf, PrayerChoice.MaxDamage);
  }

  /** Grouped monsters in the NPC overlay are alive, attacking, with an upcoming attack, and never alone. */
  lemma OverlayMembersEligible(host: Host, roster: seq<Npc>, formed: seq<int>, n: Npc)
    requires Distinct(formed)
    requires forall t :: t in formed <==> Forms(host.prayerOf, Active(host, roster), t)
    requires n in ResultOf(Active(host, roster), PrayerChoice.MaxDamage, formed)
    ensures var g := ResultOf(Active(host, roster), PrayerChoice.MaxDamage, formed)[n];
      |g.members| >= 2 && |PrayersOf(host.prayerOf, g.members)| > 1 &&
      forall m :: m in g.members ==> m in roster && OverlayEligible(host, m) && m.ticks == n.ticks
  {
    var active := Active(host, roster);
    ResultOfMeaning(host.prayerOf, active, PrayerChoice.MaxDamage, formed);
    var k :| 0 <= k < |formed| && formed[k] == n.ticks;
  }

  /**
   * The overlay's marks on a monster: the tick text uses the critical colour
   * when the attack is next tick, or when a blob is four ticks from its
   * attack; a grouped monster that is not dying and has an upcoming attack
   * gets a "!" in its group's colour, with a warning sign for a group whose
   * priority is above 80.
   */
  predicate CriticalTickColour(n: Npc)
  {
    n.ticks == 1 || (n.kind == Blob && n.ticks == 4)
  }

  datatype Indicator = Indicator(colour: nat, warning: bool)

  function GroupIndicator(result: map<Npc, Group>, n: Npc, dead: bool): (r: Option<Indicator>)
    ensures r.Some? <==> n in result && !dead && n.ticks > 0
    ensures r.Some? ==> r.value.colour == result[n].colour && (r.value.warning <==> result[n].priority > 80)
  {
    if n in result && !dead && n.ticks > 0 then Some(Indicator(result[n].colour, result[n].priority > 80)) else None
  }

  /** Two candidates of the roster attack on tick `t` needing different prayers. */
  ghost predicate ClashOn(host: Host, roster: seq<Npc>, t: int)
  {
    exists m1, m2 :: m1 in roster && m2 in roster && OverlayEligible(host, m1) && OverlayEligible(host, m2) &&
      m1.ticks == t && m2.ticks == t &&
      host.prayerOf(m1.attack).Some? && host.prayerOf(m2.attack).Some? && host.prayerOf(m1.attack) != host.prayerOf(m2.attack)
  }

  /** A tick that forms a group has two candidates needing different prayers. */
  lemma FormsClash(host: Host, roster: seq<Npc>, t: int)
    requires Forms(host.prayerOf, Active(host, roster), t)
    ensures ClashOn(host, roster, t)
  {
    var group := OnTick(Active(host, roster), t);
    var i, j := TwoPrayersWitness(host.prayerOf, group);
    assert group[i] in Active(host, roster) && group[j] in Active(host, roster);
  }

  /**
   * What the "!" over a monster means: it is drawn exactly for a monster of
   * the roster that is a candidate (alive, attacking, with an upcoming
   * attack) on a tick that forms a group; then two candidates of the roster
   * attack on that tick needing different prayers, the colour is the
   * palette colour of that tick's place among the formed groups, and the
   * warning sign shows exactly when the summed maximum damage on the tick is
   * above 80.
   */
  lemma IndicatorMeaning(host: Host, roster: seq<Npc>, formed: seq<int>, n: Npc)
    requires Distinct(formed)
    requires forall t :: t in formed <==> Forms(host.prayerOf, Active(host, roster), t)
    ensures var ind := GroupIndicator(ResultOf(Active(host, roster), PrayerChoice.MaxDamage, formed), n, host.isDead(n.id));
      ind.Some? <==> n in roster && OverlayEligible(host, n) && Forms(host.prayerOf, Active(host, roster), n.ticks)
    ensures var ind := GroupIndicator(ResultOf(Active(host, roster), PrayerChoice.MaxDamage, formed), n, host.isDead(n.id));
      ind.Some? ==> ClashOn(host, roster, n.ticks)
    ensures var ind := GroupIndicator(ResultOf(Active(host, roster), PrayerChoice.MaxDamage, formed), n, host.isDead(n.id));
      forall k :: 0 <= k < |formed| && formed[k] == n.ticks && ind.Some? ==> ind.value.colour == k % PaletteSize
    ensures var ind := GroupIndicator(ResultOf(Active(host, roster), PrayerChoice.MaxDamage, formed), n, host.isDead(n.id));
      ind.Some? ==> (ind.value.warning <==> DamageSum(PrayerChoice.MaxDamage, OnTick(Active(host, roster), n.ticks)) > 80)
  {
    var active := Active(host, roster);
    ResultOfMeaning(host.prayerOf, active, PrayerChoice.MaxDamage, formed);
    var r := ResultOf(active, PrayerChoice.MaxDamage, formed);
    assert n in r <==> n in active && Forms(host.prayerOf, active, n.ticks);
    if n in r {
      FormsClash(host, roster, n.ticks);
      forall k | 0 <= k < |formed| && formed[k] == n.ticks
        ensures r[n].colour == k % PaletteSize
      {
        assert r[n] == GroupAt(active, PrayerChoice.MaxDamage, formed[k], k);
      }
      var k :| 0 <= k < |formed| && formed[k] == n.ticks;
      assert r[n] == GroupAt(active, PrayerChoice.MaxDamage, formed[k], k);
    }
  }

  /**
   * The critical colour marks the tick on which a prayer must be up against
   * the monster. For a monster the threat window records (not a dying
   * ranger or mage, an eligible prayer helper, and for a blob with
   * detection-tick indication on), the tick text is critical exactly when
   * the monster puts an attack on the next tick of the window: its own
   * attack next tick, or a blob's detection tick, three ticks before its
   * attack. A critical monster of the roster therefore always has next tick
   * in the window.
   */
  lemma CriticalMeansPrayNextTick(host: Host, cfg: Config, roster: seq<Npc>, n: Npc)
    requires !TW.Skipped(host, n) && TW.Eligible(cfg, n)
    requires n.kind == Blob ==> cfg.indicateBlobDetectionTick
    ensures CriticalTickColour(n) <==> exists a, p :: TW.Contributes(host, cfg, n, 1, a, p)
    ensures n in roster && CriticalTickColour(n) ==> 1 in TW.RecordAll(host, cfg, roster)
  {
    if CriticalTickColour(n) {
      if TW.Detecting(cfg, n) {
        assert TW.Contributes(host, cfg, n, 1, Magic, host.priority(Blob));
      } else {
        assert TW.Contributes(host, cfg, n, 1, n.attack, host.priority(n.kind));
      }
      if n in roster {
        TW.RecordAllComplete(host, cfg, roster);
        var i :| 0 <= i < |roster| && roster[i] == n;
        assert TW.Covers(host, cfg, TW.RecordAll(host, cfg, roster), roster[i]);
      }
    }
  }
}
