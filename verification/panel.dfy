/**
 * The attack-timer panel. Monsters with an upcoming attack are bucketed by
 * type, same-tick groups are found among the attacking types (without the
 * NPC overlay's dying check, and with the panel's own damage table), and
 * each displayed type gets one block of lines in the order Jad, Mager,
 * Ranger, Meleer, Blob, Bat. A type whose monsters all share one status
 * (none grouped, or all in one group) gets a single line; otherwise the
 * ungrouped monsters get a line of their own and each group another one in
 * its palette colour, and only the block's first line names the type. A
 * title comes first, and the recommended prayer last when there is one.
 */
module AttackPanel {
  import opened InfernoTypes
  import opened Text
  import SameTick

  /** The colours a panel text takes: the text colour, a group palette colour, or a style colour. */
  datatype Tint = TextColour | Palette(index: nat) | RedTint | GreenTint | BlueTint

  /** A panel line: the title, or a left/right text pair with the right side's colour. */
  datatype PanelLine = Title(text: string) | Row(left: string, right: string, tint: Tint)

  /** The types the panel lists, in display order. */
  const DisplayOrder: seq<NpcType> := [Jad, Mage, Ranger, Meleer, Blob, Bat]

  /** `getNPCTypeName`; the other types print their enum name. */
  function TypeName(k: NpcType): string
  {
    match k
    case Jad => "Jad"
    case Mage => "Mager"
    case Ranger => "Ranger"
    case Meleer => "Meleer"
    case Blob => "Blob"
    case Bat => "Bat"
    case Nibbler => "NIBBLER"
    case HealerJad => "HEALER_JAD"
    case HealerZuk => "HEALER_ZUK"
    case Zuk => "ZUK"
  }

  /** `getAttackTypeSymbol`: crossed swords, bow and arrow, sparkles, or a question mark. */
  function Symbol(a: Attack): string
  {
    match a
    case Melee => "\U{2694}"
    case Ranged => "\U{1F3F9}"
    case Magic => "\U{2728}"
    case Unknown => "?"
  }

  /** The warning suffix of a grouped monster's entry. */
  const Warning: string := " \U{26A0}"

  /** The panel's candidates for grouping: an upcoming attack and an attacking type (dying monsters included). */
  predicate PanelEligible(n: Npc)
  {
    n.ticks > 0 && SameTick.IsAttackingType(n.kind)
  }

  function PanelActive(rs: seq<Npc>): seq<Npc>
  {
    if |rs| == 0 then [] else PanelActive(rs[..|rs| - 1]) + (if PanelEligible(rs[|rs| - 1]) then [rs[|rs| - 1]] else [])
  }

  /** The monsters of one type with an upcoming attack, in roster order (`npcsByType`). */
  function Bucket(rs: seq<Npc>, k: NpcType): seq<Npc>
  {
    if |rs| == 0 then []
    else Bucket(rs[..|rs| - 1], k) + (if rs[|rs| - 1].ticks > 0 && rs[|rs| - 1].kind == k then [rs[|rs| - 1]] else [])
  }

  /** Which monsters the candidate list and a bucket hold. */
  lemma {:induction false} FilterMembers(rs: seq<Npc>, k: NpcType)
    ensures forall n :: n in PanelActive(rs) <==> n in rs && PanelEligible(n)
    ensures forall n :: n in Bucket(rs, k) <==> n in rs && n.ticks > 0 && n.kind == k
  {
    if |rs| > 0 {
      FilterMembers(rs[..|rs| - 1], k);
      assert rs == rs[..|rs| - 1] + [rs[|rs| - 1]];
    }
  }

  /** Every listed type is an attacking type, so a bucket's monsters are all candidates. */
  lemma BucketsAreCandidates(rs: seq<Npc>, k: NpcType)
    requires k in DisplayOrder
    ensures forall n :: n in Bucket(rs, k) ==> n in PanelActive(rs)
  {
    FilterMembers(rs, k);
  }

  /** The panel's `findSimultaneousAttackers`. */
  method PanelGroups(roster: seq<Npc>, prayerOf: Attack -> Option<Prayer>)
    returns (result: map<Npc, SameTick.Group>, ghost formed: seq<int>)
    ensures result == SameTick.ResultOf(PanelActive(roster), SameTick.PanelMaxDamage, formed)
    ensures SameTick.Distinct(formed)
    ensures forall t :: t in formed <==> SameTick.Forms(prayerOf, PanelActive(roster), t)
  {
    var active := [];
    var i := 0;
    while i < |roster|
      invariant 0 <= i <= |roster|
      invariant active == PanelActive(roster[..i])
    {
      assert roster[..i + 1][..i] == roster[..i];
      if PanelEligible(roster[i]) {
        active := active + [roster[i]];
      }
      i := i + 1;
    }
    assert roster[..|roster|] == roster;
    result, formed := SameTick.FindGroups(active, prayerOf, SameTick.PanelMaxDamage);
  }

  /**
   * Groups are compared by tick and priority (`SimultaneousGroup.equals`).
   * Among the groups of one result that is the same as comparing the groups
   * themselves, so the hash sets and maps keyed by group see exactly the
   * result's distinct groups.
   */
  predicate SameKey(g: SameTick.Group, h: SameTick.Group)
  {
    g.tick == h.tick && g.priority == h.priority
  }

  lemma SameKeyMeansSameGroup(prayerOf: Attack -> Option<Prayer>, active: seq<Npc>, damage: NpcType -> int,
                              formed: seq<int>, n: Npc, m: Npc)
    requires SameTick.Distinct(formed)
    requires forall t :: t in formed <==> SameTick.Forms(prayerOf, active, t)
    requires n in SameTick.ResultOf(active, damage, formed) && m in SameTick.ResultOf(active, damage, formed)
    ensures var r := SameTick.ResultOf(active, damage, formed);
      SameKey(r[n], r[m]) <==> r[n] == r[m]
  {
    SameTick.ResultOfMeaning(prayerOf, active, damage, formed);
    var r := SameTick.ResultOf(active, damage, formed);
    var k :| 0 <= k < |formed| && formed[k] == n.ticks;
    var k' :| 0 <= k' < |formed| && formed[k'] == m.ticks;
    if SameKey(r[n], r[m]) {
      assert formed[k] == formed[k'];
    }
  }

  /** The groups the monsters belong to. */
  function GroupSet(npcs: seq<Npc>, result: map<Npc, SameTick.Group>): set<SameTick.Group>
  {
    if |npcs| == 0 then {}
    else
      var n := npcs[|npcs| - 1];
      GroupSet(npcs[..|npcs| - 1], result) + (if n in result then {result[n]} else {})
  }

  /** The ungrouped monsters, in order. */
  function Normal(npcs: seq<Npc>, result: map<Npc, SameTick.Group>): seq<Npc>
  {
    if |npcs| == 0 then []
    else
      var n := npcs[|npcs| - 1];
      Normal(npcs[..|npcs| - 1], result) + (if n !in result then [n] else [])
  }

  /** The monsters in group `g`, in order. */
  function InGroup(npcs: seq<Npc>, result: map<Npc, SameTick.Group>, g: SameTick.Group): seq<Npc>
  {
    if |npcs| == 0 then []
    else
      var n := npcs[|npcs| - 1];
      InGroup(npcs[..|npcs| - 1], result, g) + (if n in result && result[n] == g then [n] else [])
  }

  /** What the three splits hold. */
  lemma {:induction false} SplitMembers(npcs: seq<Npc>, result: map<Npc, SameTick.Group>)
    ensures forall g :: g in GroupSet(npcs, result) <==> exists n :: n in npcs && n in result && result[n] == g
    ensures forall n :: n in Normal(npcs, result) <==> n in npcs && n !in result
    ensures forall n, g :: n in InGroup(npcs, result, g) <==> n in npcs && n in result && result[n] == g
  {
    if |npcs| > 0 {
      SplitMembers(npcs[..|npcs| - 1], result);
      assert npcs == npcs[..|npcs| - 1] + [npcs[|npcs| - 1]];
    }
  }

  /** `hasMultipleGroups`' answer: ungrouped and grouped monsters together, or more than one group. */
  predicate Multiple(npcs: seq<Npc>, result: map<Npc, SameTick.Group>)
  {
    (Normal(npcs, result) != [] && GroupSet(npcs, result) != {}) || |GroupSet(npcs, result)| > 1
  }

  /** `hasMultipleGroups`. */
  method HasMultipleGroups(npcs: seq<Npc>, result: map<Npc, SameTick.Group>) returns (multiple: bool)
    ensures multiple <==> Multiple(npcs, result)
  {
    var groups: set<SameTick.Group> := {};
    var hasNormal := false;
    var i := 0;
    while i < |npcs|
      invariant 0 <= i <= |npcs|
      invariant groups == GroupSet(npcs[..i], result)
      invariant hasNormal <==> Normal(npcs[..i], result) != []
    {
      assert npcs[..i + 1][..i] == npcs[..i];
      var n := npcs[i];
      if n in result {
        groups := groups + {result[n]};
      } else {
        hasNormal := true;
      }
      i := i + 1;
    }
    assert npcs[..|npcs|] == npcs;
    multiple := (hasNormal && groups != {}) || |groups| > 1;
  }

  /** No monster is grouped. */
  ghost predicate AllNormal(npcs: seq<Npc>, result: map<Npc, SameTick.Group>)
  {
    forall n :: n in npcs ==> n !in result
  }

  /** Every monster is in group `g`. */
  ghost predicate AllIn(npcs: seq<Npc>, result: map<Npc, SameTick.Group>, g: SameTick.Group)
  {
    forall n :: n in npcs ==> n in result && result[n] == g
  }

  /** Every monster is grouped. */
  ghost predicate AllGrouped(npcs: seq<Npc>, result: map<Npc, SameTick.Group>)
  {
    forall n :: n in npcs ==> n in result
  }

  /** The splits are empty exactly when every monster has the other status, and a grouped type lies in one group when every monster does. */
  lemma {:induction false} SplitStatus(npcs: seq<Npc>, result: map<Npc, SameTick.Group>, g: SameTick.Group)
    ensures GroupSet(npcs, result) == {} <==> AllNormal(npcs, result)
    ensures Normal(npcs, result) == [] <==> AllGrouped(npcs, result)
    ensures AllGrouped(npcs, result) ==> (GroupSet(npcs, result) <= {g} <==> AllIn(npcs, result, g))
  {
    if |npcs| > 0 {
      var pre, last := npcs[..|npcs| - 1], npcs[|npcs| - 1];
      SplitStatus(pre, result, g);
      assert npcs == pre + [last];
      assert forall n :: n in npcs <==> n in pre || n == last;
    }
  }

  /** A type gets a single line exactly when its monsters all share one status: none grouped, or all in one group. */
  lemma SingleLineMeansOneStatus(npcs: seq<Npc>, result: map<Npc, SameTick.Group>)
    ensures !Multiple(npcs, result) <==> AllNormal(npcs, result) || exists g :: AllIn(npcs, result, g)
  {
    var s := GroupSet(npcs, result);
    if s == {} {
      SplitStatus(npcs, result, SameTick.Group([], 0, 0, 0));
    } else {
      NonEmptyHasMember(s);
      var x :| x in s;
      SplitStatus(npcs, result, x);
      if !Multiple(npcs, result) {
        SingletonOf(s, x);
        assert AllIn(npcs, result, x);
      }
      if exists g :: AllIn(npcs, result, g) {
        var g :| AllIn(npcs, result, g);
        SplitStatus(npcs, result, g);
        assert AllGrouped(npcs, result);
        SubsetOfSingleton(s, g);
      }
    }
  }

  /** A set of at most one element that holds `x` is `{x}`. */
  lemma SingletonOf<T>(s: set<T>, x: T)
    requires x in s && |s| <= 1
    ensures s == {x}
  {
    assert s == (s - {x}) + {x};
    assert s - {x} == {};
  }

  /** A set inside a singleton has at most one element. */
  lemma SubsetOfSingleton<T>(s: set<T>, x: T)
    requires s <= {x}
    ensures |s| <= 1
  {
    if x in s {
      assert s == {x};
    } else {
      assert s == {};
    }
  }

  /** One monster's entry: its ticks, its attack symbol, and the warning sign when it is grouped. */
  function Entry(n: Npc, result: map<Npc, SameTick.Group>): string
  {
    IntToString(n.ticks) + " " + Symbol(n.attack) + (if n in result then Warning else "")
  }

  /** The entries of the monsters, in order. */
  function Entries(npcs: seq<Npc>, result: map<Npc, SameTick.Group>): seq<string>
  {
    if |npcs| == 0 then [] else Entries(npcs[..|npcs| - 1], result) + [Entry(npcs[|npcs| - 1], result)]
  }

  /** A line listing `npcs`: the type name on the left when it is the block's first line. */
  function TypeRow(name: string, npcs: seq<Npc>, result: map<Npc, SameTick.Group>, tint: Tint, first: bool): PanelLine
  {
    Row(if first then name + ":" else "", JoinSpaced(Entries(npcs, result)), tint)
  }

  /** The single line's colour: the group colour of the last grouped monster, else the text colour. */
  function SharedTint(npcs: seq<Npc>, result: map<Npc, SameTick.Group>): Tint
  {
    if |npcs| == 0 then TextColour
    else
      var n := npcs[|npcs| - 1];
      if n in result then Palette(result[n].colour) else SharedTint(npcs[..|npcs| - 1], result)
  }

  /** When all the monsters are in one group the single line takes that group's colour; with none grouped, the text colour. */
  lemma {:induction false} SharedTintMeaning(npcs: seq<Npc>, result: map<Npc, SameTick.Group>, g: SameTick.Group)
    ensures AllNormal(npcs, result) ==> SharedTint(npcs, result) == TextColour
    ensures npcs != [] && AllIn(npcs, result, g) ==> SharedTint(npcs, result) == Palette(g.colour)
  {
    if |npcs| > 0 {
      var pre := npcs[..|npcs| - 1];
      assert forall n :: n in pre ==> n in npcs;
      assert npcs[|npcs| - 1] in npcs;
      SharedTintMeaning(pre, result, g);
    }
  }

  /** The single line of a type whose monsters share one status. */
  function SingleLine(name: string, npcs: seq<Npc>, result: map<Npc, SameTick.Group>): PanelLine
  {
    TypeRow(name, npcs, result, SharedTint(npcs, result), true)
  }

  /** The joined entries of the first `i` monsters. */
  ghost function JoinedUpTo(npcs: seq<Npc>, i: nat, result: map<Npc, SameTick.Group>): string
    requires i <= |npcs|
  {
    JoinSpaced(Entries(npcs[..i], result))
  }

  /** The colour of the single line after the first `i` monsters. */
  ghost function TintUpTo(npcs: seq<Npc>, i: nat, result: map<Npc, SameTick.Group>): Tint
    requires i <= |npcs|
  {
    SharedTint(npcs[..i], result)
  }

  /** One more entry: the joined text grows by a space (after the first) and the entry; a grouped monster sets the colour. */
  lemma SingleStep(npcs: seq<Npc>, i: nat, result: map<Npc, SameTick.Group>)
    requires i < |npcs|
    ensures JoinedUpTo(npcs, i + 1, result) == (if i > 0 then JoinedUpTo(npcs, i, result) + " " else JoinedUpTo(npcs, i, result)) + Entry(npcs[i], result)
    ensures TintUpTo(npcs, i + 1, result) == if npcs[i] in result then Palette(result[npcs[i]].colour) else TintUpTo(npcs, i, result)
  {
    assert npcs[..i + 1][..i] == npcs[..i];
    var es := Entries(npcs[..i + 1], result);
    assert es == Entries(npcs[..i], result) + [Entry(npcs[i], result)];
    assert es[..|es| - 1] == Entries(npcs[..i], result);
    if i == 0 {
      assert Entries(npcs[..0], result) == [];
    }
  }

  /** The single-line loop: entries joined with spaces, the colour taken from the last grouped monster. */
  method SingleLineOf(name: string, npcs: seq<Npc>, result: map<Npc, SameTick.Group>) returns (line: PanelLine)
    ensures line == SingleLine(name, npcs, result)
  {
    var right := "";
    var tint := TextColour;
    var i := 0;
    while i < |npcs|
      invariant 0 <= i <= |npcs|
      invariant right == JoinedUpTo(npcs, i, result)
      invariant tint == TintUpTo(npcs, i, result)
    {
      var n := npcs[i];
      SingleStep(npcs, i, result);
      if n in result {
        tint := Palette(result[n].colour);
      }
      var entry := Entry(n, result);
      if i > 0 {
        right := right + " ";
      }
      right := right + entry;
      i := i + 1;
    }
    assert npcs[..|npcs|] == npcs;
    line := Row(name + ":", right, tint);
  }

  /** A sequence listing each element of `s` exactly once. */
  ghost predicate Enumerates(order: seq<SameTick.Group>, s: set<SameTick.Group>)
  {
    (forall a, b :: 0 <= a < b < |order| ==> order[a] != order[b]) &&
    (forall g :: g in order <==> g in s)
  }

  /** One line per group, in `order`, each in its group's colour; the first names the type when `nameFree`. */
  function GroupLines(name: string, npcs: seq<Npc>, result: map<Npc, SameTick.Group>, order: seq<SameTick.Group>, nameFree: bool): seq<PanelLine>
  {
    if |order| == 0 then []
    else
      var k := |order| - 1;
      GroupLines(name, npcs, result, order[..k], nameFree) +
        [TypeRow(name, InGroup(npcs, result, order[k]), result, Palette(order[k].colour), nameFree && k == 0)]
  }

  /** The lines of a type whose monsters differ in status: the ungrouped ones first, then one line per group. */
  function MultiLines(name: string, npcs: seq<Npc>, result: map<Npc, SameTick.Group>, order: seq<SameTick.Group>): seq<PanelLine>
  {
    var normal := Normal(npcs, result);
    (if normal != [] then [TypeRow(name, normal, result, TextColour, true)] else []) +
      GroupLines(name, npcs, result, order, normal == [])
  }

  /** One more group line. */
  lemma GroupLinesSnoc(name: string, npcs: seq<Npc>, result: map<Npc, SameTick.Group>, order: seq<SameTick.Group>, nameFree: bool, g: SameTick.Group)
    ensures GroupLines(name, npcs, result, order + [g], nameFree) ==
      GroupLines(name, npcs, result, order, nameFree) +
        [TypeRow(name, InGroup(npcs, result, g), result, Palette(g.colour), nameFree && |order| == 0)]
  {
    assert (order + [g])[..|order|] == order;
  }

  /** The partition of `addMultiGroupNPCLines`: ungrouped monsters in order, and each group's monsters in order. */
  ghost predicate Partitioned(npcs: seq<Npc>, result: map<Npc, SameTick.Group>, normal: seq<Npc>, grouped: map<SameTick.Group, seq<Npc>>)
  {
    normal == Normal(npcs, result) &&
    (forall g :: g in grouped <==> g in GroupSet(npcs, result)) &&
    (forall g :: g in grouped ==> grouped[g] == InGroup(npcs, result, g)) &&
    (forall g :: g !in grouped ==> InGroup(npcs, result, g) == [])
  }

  /** Adding an ungrouped monster to the partition. */
  lemma PartitionNormal(npcs: seq<Npc>, result: map<Npc, SameTick.Group>, normal: seq<Npc>, grouped: map<SameTick.Group, seq<Npc>>, n: Npc)
    requires Partitioned(npcs, result, normal, grouped) && n !in result
    ensures Partitioned(npcs + [n], result, normal + [n], grouped)
  {
    var npcs' := npcs + [n];
    assert npcs'[..|npcs|] == npcs;
    assert GroupSet(npcs', result) == GroupSet(npcs, result);
    forall g
      ensures InGroup(npcs', result, g) == InGroup(npcs, result, g)
    {
    }
  }

  /** Adding a grouped monster to the partition: it joins the end of its group's list. */
  lemma PartitionGrouped(npcs: seq<Npc>, result: map<Npc, SameTick.Group>, normal: seq<Npc>, grouped: map<SameTick.Group, seq<Npc>>, n: Npc)
    requires Partitioned(npcs, result, normal, grouped) && n in result
    ensures Partitioned(npcs + [n], result, normal,
      grouped[result[n] := (if result[n] in grouped then grouped[result[n]] else []) + [n]])
  {
    var npcs' := npcs + [n];
    var h := result[n];
    assert npcs'[..|npcs|] == npcs;
    assert Normal(npcs', result) == Normal(npcs, result);
    assert GroupSet(npcs', result) == GroupSet(npcs, result) + {h};
    forall g
      ensures InGroup(npcs', result, g) == InGroup(npcs, result, g) + (if g == h then [n] else [])
    {
    }
  }

  /** Taking a member out of a set makes it smaller. */
  lemma RemoveShrinks<T>(s: set<T>, x: T)
    requires x in s
    ensures |s - {x}| < |s|
  {
    assert s == (s - {x}) + {x};
  }

  /** Appending one element after a concatenation. */
  lemma AppendOne<T>(a: seq<T>, b: seq<T>, x: T)
    ensures a + (b + [x]) == (a + b) + [x]
  {
  }

  /** The partition loop of `addMultiGroupNPCLines`. */
  method Partition(npcs: seq<Npc>, result: map<Npc, SameTick.Group>)
    returns (normal: seq<Npc>, grouped: map<SameTick.Group, seq<Npc>>)
    ensures Partitioned(npcs, result, normal, grouped)
  {
    normal := [];
    grouped := map[];
    var i := 0;
    while i < |npcs|
      invariant 0 <= i <= |npcs|
      invariant Partitioned(npcs[..i], result, normal, grouped)
    {
      assert npcs[..i + 1] == npcs[..i] + [npcs[i]];
      var n := npcs[i];
      if n in result {
        PartitionGrouped(npcs[..i], result, normal, grouped, n);
        var g := result[n];
        var list := if g in grouped then grouped[g] else [];
        grouped := grouped[g := list + [n]];
      } else {
        PartitionNormal(npcs[..i], result, normal, grouped, n);
        normal := normal + [n];
      }
      i := i + 1;
    }
    assert npcs[..|npcs|] == npcs;
  }

  /** Part way through the groups: `order` visited, each once, and `left` still to visit. */
  ghost predicate Visiting(keys: set<SameTick.Group>, left: set<SameTick.Group>, order: seq<SameTick.Group>)
  {
    (forall g :: g in keys <==> g in left || g in order) &&
    (forall g :: g in left ==> g !in order) &&
    (forall a, b :: 0 <= a < b < |order| ==> order[a] != order[b])
  }

  /** Visiting one more group. */
  lemma VisitStep(keys: set<SameTick.Group>, left: set<SameTick.Group>, order: seq<SameTick.Group>, g: SameTick.Group)
    requires Visiting(keys, left, order) && g in left
    ensures Visiting(keys, left - {g}, order + [g])
  {
    var order' := order + [g];
    forall a, b | 0 <= a < b < |order'|
      ensures order'[a] != order'[b]
    {
      if b == |order| {
        assert order[a] in order;
      }
    }
  }

  /** `addMultiGroupNPCLines`: groups are visited in the hash map's own order (any order). */
  method MultiGroupLines(name: string, npcs: seq<Npc>, result: map<Npc, SameTick.Group>)
    returns (lines: seq<PanelLine>, ghost order: seq<SameTick.Group>)
    ensures Enumerates(order, GroupSet(npcs, result))
    ensures lines == MultiLines(name, npcs, result, order)
  {
    var normal, grouped := Partition(npcs, result);
    lines := [];
    var firstLine := true;
    if normal != [] {
      var right := JoinSpaced(Entries(normal, result));
      lines := [Row(name + ":", right, TextColour)];
      firstLine := false;
    }
    ghost var head := lines;
    order := [];
    var left := grouped.Keys;
    while left != {}
      invariant Visiting(grouped.Keys, left, order)
      invariant firstLine <==> normal == [] && order == []
      invariant lines == head + GroupLines(name, npcs, result, order, normal == [])
      decreases |left|
    {
      NonEmptyHasMember(left);
      var g :| g in left;
      var right := JoinSpaced(Entries(grouped[g], result));
      var leftText := if firstLine then name + ":" else "";
      GroupLinesSnoc(name, npcs, result, order, normal == [], g);
      VisitStep(grouped.Keys, left, order, g);
      RemoveShrinks(left, g);
      ghost var row := TypeRow(name, InGroup(npcs, result, g), result, Palette(g.colour), normal == [] && |order| == 0);
      assert grouped[g] == InGroup(npcs, result, g);
      assert Row(leftText, right, Palette(g.colour)) == row;
      AppendOne(head, GroupLines(name, npcs, result, order, normal == []), row);
      lines := lines + [Row(leftText, right, Palette(g.colour))];
      firstLine := false;
      order := order + [g];
      left := left - {g};
    }
  }

  /** Each monster of the type is listed on exactly one line: the ungrouped line, or its own group's line. */
  lemma OneLineEach(npcs: seq<Npc>, result: map<Npc, SameTick.Group>, order: seq<SameTick.Group>, n: Npc)
    requires Enumerates(order, GroupSet(npcs, result)) && n in npcs
    ensures n in Normal(npcs, result) <==> forall k :: 0 <= k < |order| ==> n !in InGroup(npcs, result, order[k])
    ensures n !in Normal(npcs, result) ==> exists k :: 0 <= k < |order| && n in InGroup(npcs, result, order[k])
    ensures forall a, b :: 0 <= a < b < |order| ==> !(n in InGroup(npcs, result, order[a]) && n in InGroup(npcs, result, order[b]))
  {
    SplitMembers(npcs, result);
    if n in result {
      assert result[n] in GroupSet(npcs, result);
      var k :| 0 <= k < |order| && order[k] == result[n];
      assert n in InGroup(npcs, result, order[k]);
    }
  }

  /** How a type's block is drawn: nothing without monsters, one line when they share a status, and the split lines otherwise. */
  ghost predicate RendersBlock(name: string, npcs: seq<Npc>, result: map<Npc, SameTick.Group>, block: seq<PanelLine>)
  {
    if npcs == [] then block == []
    else if Multiple(npcs, result) then
      exists order :: Enumerates(order, GroupSet(npcs, result)) && block == MultiLines(name, npcs, result, order)
    else block == [SingleLine(name, npcs, result)]
  }

  /** Only the first line of a type's block names the type. */
  lemma BlockNamesTypeOnce(name: string, npcs: seq<Npc>, result: map<Npc, SameTick.Group>, block: seq<PanelLine>)
    requires RendersBlock(name, npcs, result, block) && npcs != []
    ensures block != [] && block[0].Row? && block[0].left == name + ":"
    ensures forall j :: 1 <= j < |block| ==> block[j].Row? && block[j].left == ""
  {
    if Multiple(npcs, result) {
      var order :| Enumerates(order, GroupSet(npcs, result)) && block == MultiLines(name, npcs, result, order);
      if Normal(npcs, result) == [] {
        var s := GroupSet(npcs, result);
        assert |s| > 1;
        NonEmptyHasMember(s);
        var g :| g in s;
        assert g in order;
      }
      MultiLinesLeft(name, npcs, result, order);
    }
  }

  /** The split lines name the type on their first line only. */
  lemma MultiLinesLeft(name: string, npcs: seq<Npc>, result: map<Npc, SameTick.Group>, order: seq<SameTick.Group>)
    requires Normal(npcs, result) != [] || order != []
    ensures var b := MultiLines(name, npcs, result, order);
      b != [] && forall j :: 0 <= j < |b| ==> b[j].Row? && b[j].left == if j == 0 then name + ":" else ""
  {
    var normal := Normal(npcs, result);
    var ls := GroupLines(name, npcs, result, order, normal == []);
    GroupLinesLeft(name, npcs, result, order, normal == []);
    if normal != [] {
      var row := TypeRow(name, normal, result, TextColour, true);
      forall j | 1 <= j < 1 + |ls|
        ensures ([row] + ls)[j] == ls[j - 1]
      {
        ConsIndex(row, ls, j);
      }
    }
  }

  /** Indexing past the head of a sequence. */
  lemma ConsIndex<T>(x: T, xs: seq<T>, j: int)
    requires 1 <= j <= |xs|
    ensures ([x] + xs)[j] == xs[j - 1]
  {
  }

  /** The group lines' left texts: the name on the first only when it is free. */
  lemma {:induction false} GroupLinesLeft(name: string, npcs: seq<Npc>, result: map<Npc, SameTick.Group>, order: seq<SameTick.Group>, nameFree: bool)
    ensures var ls := GroupLines(name, npcs, result, order, nameFree);
      |ls| == |order| &&
      (forall j :: 0 <= j < |ls| ==> ls[j].Row? && ls[j].left == if nameFree && j == 0 then name + ":" else "")
  {
    if |order| > 0 {
      GroupLinesLeft(name, npcs, result, order[..|order| - 1], nameFree);
    }
  }

  /** A type's block (the body of the display-order loop). */
  method TypeBlock(name: string, npcs: seq<Npc>, result: map<Npc, SameTick.Group>) returns (block: seq<PanelLine>)
    ensures RendersBlock(name, npcs, result, block)
  {
    if npcs == [] {
      return [];
    }
    var multiple := HasMultipleGroups(npcs, result);
    if multiple {
      ghost var order;
      block, order := MultiGroupLines(name, npcs, result);
    } else {
      var line := SingleLineOf(name, npcs, result);
      block := [line];
    }
  }

  /** Each block renders its type of `kinds`, in order, from that type's bucket. */
  ghost predicate RendersAll(kinds: seq<NpcType>, roster: seq<Npc>, result: map<Npc, SameTick.Group>, blocks: seq<seq<PanelLine>>)
    decreases |blocks|
  {
    |blocks| <= |kinds| &&
    (|blocks| > 0 ==>
      var k := kinds[|blocks| - 1];
      RendersAll(kinds, roster, result, blocks[..|blocks| - 1]) &&
      RendersBlock(TypeName(k), Bucket(roster, k), result, blocks[|blocks| - 1]))
  }

  /** The block at index `i` renders the `i`-th type. */
  lemma {:induction false} RendersAllAt(kinds: seq<NpcType>, roster: seq<Npc>, result: map<Npc, SameTick.Group>, blocks: seq<seq<PanelLine>>, i: nat)
    requires RendersAll(kinds, roster, result, blocks) && i < |blocks|
    ensures RendersBlock(TypeName(kinds[i]), Bucket(roster, kinds[i]), result, blocks[i])
  {
    if i < |blocks| - 1 {
      RendersAllAt(kinds, roster, result, blocks[..|blocks| - 1], i);
      assert blocks[..|blocks| - 1][i] == blocks[i];
    }
  }

  /** The blocks, one after another. */
  function Flatten(blocks: seq<seq<PanelLine>>): seq<PanelLine>
  {
    if |blocks| == 0 then [] else Flatten(blocks[..|blocks| - 1]) + blocks[|blocks| - 1]
  }

  /**
   * `addAttackTimers`: the types are bucketed, the groups found, and one
   * block per displayed type appended in display order.
   */
  method AddAttackTimers(roster: seq<Npc>, prayerOf: Attack -> Option<Prayer>)
    returns (lines: seq<PanelLine>, ghost blocks: seq<seq<PanelLine>>, ghost result: map<Npc, SameTick.Group>, ghost formed: seq<int>)
    ensures result == SameTick.ResultOf(PanelActive(roster), SameTick.PanelMaxDamage, formed)
    ensures SameTick.Distinct(formed) && forall t :: t in formed <==> SameTick.Forms(prayerOf, PanelActive(roster), t)
    ensures |blocks| == |DisplayOrder| && lines == Flatten(blocks)
    ensures RendersAll(DisplayOrder, roster, result, blocks)
  {
    var groups;
    groups, formed := PanelGroups(roster, prayerOf);
    result := groups;
    lines := [];
    blocks := [];
    var i := 0;
    while i < |DisplayOrder|
      invariant 0 <= i <= |DisplayOrder|
      invariant |blocks| == i && lines == Flatten(blocks)
      invariant RendersAll(DisplayOrder, roster, result, blocks)
    {
      var k := DisplayOrder[i];
      var npcs := BucketOf(roster, k);
      var block := TypeBlock(TypeName(k), npcs, groups);
      assert (blocks + [block])[..i] == blocks;
      blocks := blocks + [block];
      lines := lines + block;
      i := i + 1;
    }
  }

  /** The bucketing loop for one type. */
  method BucketOf(roster: seq<Npc>, k: NpcType) returns (npcs: seq<Npc>)
    ensures npcs == Bucket(roster, k)
  {
    npcs := [];
    var i := 0;
    while i < |roster|
      invariant 0 <= i <= |roster|
      invariant npcs == Bucket(roster[..i], k)
    {
      assert roster[..i + 1][..i] == roster[..i];
      if roster[i].ticks > 0 && roster[i].kind == k {
        npcs := npcs + [roster[i]];
      }
      i := i + 1;
    }
    assert roster[..|roster|] == roster;
  }

  /** `getPrayerDisplayName`. */
  function PrayerName(p: Prayer): string
  {
    match p
    case ProtectFromMelee => "Melee"
    case ProtectFromMissiles => "Range"
    case ProtectFromMagic => "Magic"
  }

  /** `getAttackTypeColor`. */
  function AttackTint(a: Attack): (t: Tint)
    ensures t == TextColour <==> a == Unknown
  {
    match a
    case Melee => RedTint
    case Ranged => GreenTint
    case Magic => BlueTint
    case Unknown => TextColour
  }

  /** `addRecommendedPrayer`: a spacer and the closest attack's prayer, when it has one. */
  function PrayerLines(closest: Option<Attack>, prayerOf: Attack -> Option<Prayer>): (r: seq<PanelLine>)
    ensures r != [] <==> closest.Some? && prayerOf(closest.value).Some?
    ensures r != [] ==> |r| == 2 && r[1] == Row("Prayer:", PrayerName(prayerOf(closest.value).value), AttackTint(closest.value))
  {
    if closest.None? then []
    else
      var p := prayerOf(closest.value);
      if p.None? then [] else [Row("", "", TextColour), Row("Prayer:", PrayerName(p.value), AttackTint(closest.value))]
  }

  /** The three prayers are told apart by their names. */
  lemma PrayerNamesDistinct(p: Prayer, q: Prayer)
    ensures PrayerName(p) == PrayerName(q) <==> p == q
  {
  }

  /** `render`: nothing when the panel is switched off; otherwise the title, the timers and the prayer. */
  method Render(cfg: Config, roster: seq<Npc>, prayerOf: Attack -> Option<Prayer>, closest: Option<Attack>)
    returns (panel: Option<seq<PanelLine>>, ghost blocks: seq<seq<PanelLine>>, ghost result: map<Npc, SameTick.Group>, ghost formed: seq<int>)
    ensures !cfg.showAttackTimerOverlay ==> panel.None?
    ensures cfg.showAttackTimerOverlay ==>
      panel.Some? && panel.value == [Title("Attack Timers")] + Flatten(blocks) + PrayerLines(closest, prayerOf)
    ensures cfg.showAttackTimerOverlay ==>
      result == SameTick.ResultOf(PanelActive(roster), SameTick.PanelMaxDamage, formed) &&
      SameTick.Distinct(formed) && (forall t :: t in formed <==> SameTick.Forms(prayerOf, PanelActive(roster), t)) &&
      |blocks| == |DisplayOrder| && RendersAll(DisplayOrder, roster, result, blocks)
  {
    if !cfg.showAttackTimerOverlay {
      return None, [], map[], [];
    }
    var timers;
    timers, blocks, result, formed := AddAttackTimers(roster, prayerOf);
    panel := Some([Title("Attack Timers")] + timers + PrayerLines(closest, prayerOf));
  }
}
