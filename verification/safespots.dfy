/**
 * Safespot classification. Every tile of a square around the player gets a
 * code saying which attack styles reach it: 0 safe, 1 melee, 2 ranged,
 * 3 magic, 4 melee+ranged, 5 melee+magic, 6 ranged+magic, 7 all three. The
 * code is built one monster at a time through three literal step tables, one
 * per style. The melee table adds melee to the style set; the magic and
 * ranged tables do so too except at two entries each (magic leaves 4 alone
 * and turns 5 into 7; ranged leaves 5 alone and turns 4 into 7), which
 * the lemmas below exhibit. No step ever removes a style.
 */
module Safespots {
  import opened InfernoTypes
  import opened Settings

  /** The styles a code stands for. */
  function Styles(code: int): set<Attack>
  {
    match code
    case 1 => {Melee}
    case 2 => {Ranged}
    case 3 => {Magic}
    case 4 => {Melee, Ranged}
    case 5 => {Melee, Magic}
    case 6 => {Ranged, Magic}
    case 7 => {Melee, Ranged, Magic}
    case _ => {}
  }

  predicate IsCode(c: int) { 0 <= c <= 7 }

  /** A melee attacker reaches the tile. */
  function MeleeStep(c: int): (r: int)
    ensures IsCode(c) ==> IsCode(r) && Styles(r) == Styles(c) + {Melee}
  {
    if c == 0 then 1 else if c == 2 then 4 else if c == 3 then 5 else if c == 6 then 7 else c
  }

  /** A magic attacker reaches the tile. */
  function MagicStep(c: int): (r: int)
    ensures IsCode(c) ==> IsCode(r) && Styles(c) <= Styles(r)
    ensures IsCode(c) && c != 4 && c != 5 ==> Styles(r) == Styles(c) + {Magic}
  {
    if c == 0 then 3 else if c == 1 then 5 else if c == 2 then 6 else if c == 5 then 7 else c
  }

  /** A ranged attacker reaches the tile. */
  function RangedStep(c: int): (r: int)
    ensures IsCode(c) ==> IsCode(r) && Styles(c) <= Styles(r)
    ensures IsCode(c) && c != 4 && c != 5 ==> Styles(r) == Styles(c) + {Ranged}
  {
    if c == 0 then 2 else if c == 1 then 4 else if c == 3 then 6 else if c == 4 then 7 else c
  }

  /** The melee table adds exactly melee to the style set. */
  lemma MeleeStepIsUnion(c: int)
    requires IsCode(c)
    ensures IsCode(MeleeStep(c)) && Styles(MeleeStep(c)) == Styles(c) + {Melee}
  {
  }

  /** The magic and ranged tables add their style except at the two entries each where they do not. */
  lemma MagicRangedSteps(c: int)
    requires IsCode(c)
    ensures IsCode(MagicStep(c)) && IsCode(RangedStep(c))
    ensures c != 4 && c != 5 ==> Styles(MagicStep(c)) == Styles(c) + {Magic}
    ensures c != 4 && c != 5 ==> Styles(RangedStep(c)) == Styles(c) + {Ranged}
    ensures Styles(c) <= Styles(MagicStep(c)) && Styles(c) <= Styles(RangedStep(c))
  {
  }

  /** The four entries where the magic and ranged tables are not a union with their style. */
  lemma MagicRangedStepsOddEntries()
    ensures MagicStep(4) == 4 && Magic !in Styles(MagicStep(4))
    ensures MagicStep(5) == 7 && Styles(MagicStep(5)) != Styles(5) + {Magic}
    ensures RangedStep(5) == 5 && Ranged !in Styles(RangedStep(5))
    ensures RangedStep(4) == 7 && Styles(RangedStep(4)) != Styles(4) + {Ranged}
  {
  }

  /** Whether monster `n` reaches `tile`, by attacking from where it stands or by walking into range. */
  predicate Reaches(host: Host, n: Npc, tile: Tile, obstacles: seq<Tile>)
  {
    host.canAttack(n, tile) || host.canMoveToAttack(n, tile, obstacles)
  }

  /**
   * How one reaching monster changes a tile's code: its default style's table,
   * with a blob also applying the magic table unless the code already holds
   * ranged (2 or 4) and the ranged table unless it already holds magic (3 or
   * 5); Jad additionally applies the melee table when the tile is within melee
   * distance.
   */
  function NpcStep(host: Host, n: Npc, tile: Tile, obstacles: seq<Tile>, c: int): (r: int)
    ensures IsCode(c) ==> IsCode(r) && Styles(c) <= Styles(r)
    ensures r != c ==> Reaches(host, n, tile, obstacles)
  {
    if !Reaches(host, n, tile, obstacles) then c
    else
      var style := host.defaultAttack(n.kind);
      var c1 := if style == Melee then MeleeStep(c) else c;
      var c2 := if style == Magic || (n.kind == Blob && c1 != 2 && c1 != 4) then MagicStep(c1) else c1;
      var c3 := if style == Ranged || (n.kind == Blob && c2 != 3 && c2 != 5) then RangedStep(c2) else c2;
      if n.kind == Jad && host.inMeleeDistance(n, tile) then MeleeStep(c3) else c3
  }

  /** A step keeps codes in range and never drops a style; a monster that reaches a safe tile makes it unsafe when it has a style. */
  lemma NpcStepGrows(host: Host, n: Npc, tile: Tile, obstacles: seq<Tile>, c: int)
    requires IsCode(c)
    ensures IsCode(NpcStep(host, n, tile, obstacles, c))
    ensures Styles(c) <= Styles(NpcStep(host, n, tile, obstacles, c))
    ensures Reaches(host, n, tile, obstacles) && host.defaultAttack(n.kind) == Melee ==>
      Melee in Styles(NpcStep(host, n, tile, obstacles, c))
    ensures Reaches(host, n, tile, obstacles) && (host.defaultAttack(n.kind) != Unknown || n.kind == Blob) ==>
      NpcStep(host, n, tile, obstacles, c) != 0
    ensures NpcStep(host, n, tile, obstacles, c) != c ==> Reaches(host, n, tile, obstacles)
  {
    if Reaches(host, n, tile, obstacles) {
      var style := host.defaultAttack(n.kind);
      var c1 := if style == Melee then MeleeStep(c) else c;
      MeleeStepIsUnion(c);
      MagicRangedSteps(c1);
      var c2 := if style == Magic || (n.kind == Blob && c1 != 2 && c1 != 4) then MagicStep(c1) else c1;
      MagicRangedSteps(c2);
      var c3 := if style == Ranged || (n.kind == Blob && c2 != 3 && c2 != 5) then RangedStep(c2) else c2;
      MeleeStepIsUnion(c3);
    }
  }

  /**
   * The code of one tile after every monster of `rs` has been considered, or
   * none when no monster takes part in the safespot scan: the tile's entry is
   * created (as 0) by the first monster that takes part, whether or not it
   * reaches the tile.
   */
  function TileCode(host: Host, cfg: Config, rs: seq<Npc>, tile: Tile, obstacles: seq<Tile>): (r: Option<int>)
    ensures r.Some? ==> IsCode(r.value)
  {
    if |rs| == 0 then None
    else
      var prev := TileCode(host, cfg, rs[..|rs| - 1], tile, obstacles);
      var n := rs[|rs| - 1];
      if !IsNormalSafespots(cfg, n.kind) then prev
      else Some(NpcStep(host, n, tile, obstacles, if prev.Some? then prev.value else 0))
  }

  ghost predicate Considered(cfg: Config, rs: seq<Npc>)
  {
    exists i :: 0 <= i < |rs| && IsNormalSafespots(cfg, rs[i].kind)
  }

  /**
   * A tile's code is in range, exists exactly when some monster takes part,
   * holds melee when a melee monster reaches it, is non-zero when a monster
   * with a style (or a blob) reaches it, and is non-zero only when some
   * monster reaches it.
   */
  lemma {:induction false} TileCodeMeaning(host: Host, cfg: Config, rs: seq<Npc>, tile: Tile, obstacles: seq<Tile>)
    ensures var c := TileCode(host, cfg, rs, tile, obstacles);
      (c.Some? <==> Considered(cfg, rs)) &&
      (c.Some? ==> IsCode(c.value)) &&
      (forall i :: (0 <= i < |rs| && IsNormalSafespots(cfg, rs[i].kind) && Reaches(host, rs[i], tile, obstacles)
         && host.defaultAttack(rs[i].kind) == Melee) ==> c.Some? && Melee in Styles(c.value)) &&
      (forall i :: (0 <= i < |rs| && IsNormalSafespots(cfg, rs[i].kind) && Reaches(host, rs[i], tile, obstacles)
         && (host.defaultAttack(rs[i].kind) != Unknown || rs[i].kind == Blob)) ==> c.Some? && c.value != 0) &&
      (c.Some? && c.value != 0 ==>
         exists i :: 0 <= i < |rs| && IsNormalSafespots(cfg, rs[i].kind) && Reaches(host, rs[i], tile, obstacles))
  {
    if |rs| > 0 {
      var pre := rs[..|rs| - 1];
      var n := rs[|rs| - 1];
      TileCodeMeaning(host, cfg, pre, tile, obstacles);
      var prev := TileCode(host, cfg, pre, tile, obstacles);
      var c := TileCode(host, cfg, rs, tile, obstacles);
      assert forall i :: 0 <= i < |pre| ==> rs[i] == pre[i];
      if IsNormalSafespots(cfg, n.kind) {
        var start := if prev.Some? then prev.value else 0;
        NpcStepGrows(host, n, tile, obstacles, start);
        if c.value != 0 && !Reaches(host, n, tile, obstacles) {
          var i :| 0 <= i < |pre| && IsNormalSafespots(cfg, pre[i].kind) && Reaches(host, pre[i], tile, obstacles);
          assert rs[i] == pre[i];
        }
      } else {
        if Considered(cfg, rs) {
          var i :| 0 <= i < |rs| && IsNormalSafespots(cfg, rs[i].kind);
          assert i < |pre|;
        }
      }
      if prev.Some? && prev.value != 0 {
        var i :| 0 <= i < |pre| && IsNormalSafespots(cfg, pre[i].kind) && Reaches(host, pre[i], tile, obstacles);
        assert rs[i] == pre[i];
      }
    }
  }

  /** `Math.floor(size / 2.0)`: Dafny's division of an int by 2 already rounds down. */
  function HalfSize(size: int): (h: int)
    ensures 2 * h <= size < 2 * h + 2
  {
    size / 2
  }

  /** The scan square: tiles within `h` of the player on both axes. */
  predicate InSquare(tile: Tile, player: Tile, h: int)
  {
    -h <= tile.x - player.x <= h && -h <= tile.y - player.y <= h
  }

  /** The codes the scan puts in the safespot map. */
  ghost predicate ScanResult(host: Host, cfg: Config, roster: seq<Npc>, player: Tile, obstacles: seq<Tile>, h: int, spots: map<Tile, int>)
  {
    forall tile: Tile :: tile in spots <==>
      InSquare(tile, player, h) && tile !in obstacles && TileCode(host, cfg, roster, tile, obstacles).Some?
  }

  /**
   * The normal-wave part of `calculateSafespots`: scan the square around the
   * player, skip tiles an NPC occupied at the last obstacle scan, and give
   * every other tile the code of its reaching monsters. Only tiles some
   * monster takes part in get an entry.
   */
  method ScanSafespots(host: Host, cfg: Config, roster: seq<Npc>, player: Tile, obstacles: seq<Tile>)
    returns (spots: map<Tile, int>)
    ensures ScanResult(host, cfg, roster, player, obstacles, HalfSize(cfg.safespotsCheckSize), spots)
    ensures forall tile: Tile :: tile in spots ==> spots[tile] == TileCode(host, cfg, roster, tile, obstacles).value
  {
    var h := HalfSize(cfg.safespotsCheckSize);
    spots := map[];
    var dx := -h;
    while dx <= h
      invariant -h <= dx <= h + 1 || (h < 0 && dx == -h)
      invariant forall tile: Tile :: tile in spots <==>
        (-h <= tile.x - player.x < dx && -h <= tile.y - player.y <= h
         && tile !in obstacles && TileCode(host, cfg, roster, tile, obstacles).Some?)
      invariant forall tile: Tile :: tile in spots ==> spots[tile] == TileCode(host, cfg, roster, tile, obstacles).value
    {
      var dy := -h;
      while dy <= h
        invariant -h <= dy <= h + 1
        invariant forall tile: Tile :: tile in spots <==>
          ((-h <= tile.x - player.x < dx && -h <= tile.y - player.y <= h) ||
           (tile.x - player.x == dx && -h <= tile.y - player.y < dy))
          && tile !in obstacles && TileCode(host, cfg, roster, tile, obstacles).Some?
        invariant forall tile: Tile :: tile in spots ==> spots[tile] == TileCode(host, cfg, roster, tile, obstacles).value
      {
        var tile := Tile(player.x + dx, player.y + dy);
        if tile !in obstacles {
          var code: Option<int> := None;
          var k := 0;
          while k < |roster|
            invariant 0 <= k <= |roster|
            invariant code == TileCode(host, cfg, roster[..k], tile, obstacles)
          {
            assert roster[..k + 1][..k] == roster[..k];
            var n := roster[k];
            if IsNormalSafespots(cfg, n.kind) {
              var c := if code.Some? then code.value else 0;
              code := Some(NpcStep(host, n, tile, obstacles, c));
            }
            k := k + 1;
          }
          assert roster[..|roster|] == roster;
          if code.Some? {
            spots := spots[tile := code.value];
          }
        }
        dy := dy + 1;
      }
      dx := dx + 1;
    }
  }

  /** `drawZukSafespot`: the five-by-three block of tiles from (x − 1, y − 4) to (x + 3, y − 2). */
  predicate InShieldBlock(tile: Tile, x: int, y: int)
  {
    x - 1 <= tile.x <= x + 3 && y - 4 <= tile.y <= y - 2
  }

  /** Stamp the block below the shield at (x, y) with `code`, overwriting what was there. */
  method StampShieldBlock(spots: map<Tile, int>, x: int, y: int, code: int) returns (r: map<Tile, int>)
    ensures forall tile: Tile :: tile in r <==> tile in spots || InShieldBlock(tile, x, y)
    ensures forall tile: Tile :: InShieldBlock(tile, x, y) ==> r[tile] == code
    ensures forall tile: Tile :: tile in spots && !InShieldBlock(tile, x, y) ==> r[tile] == spots[tile]
  {
    r := spots;
    var i := x - 1;
    while i <= x + 3
      invariant x - 1 <= i <= x + 4
      invariant forall tile: Tile :: tile in r <==> tile in spots || (x - 1 <= tile.x < i && y - 4 <= tile.y <= y - 2)
      invariant forall tile: Tile :: x - 1 <= tile.x < i && y - 4 <= tile.y <= y - 2 ==> r[tile] == code
      invariant forall tile: Tile :: tile in spots && !(x - 1 <= tile.x < i && y - 4 <= tile.y <= y - 2) ==> r[tile] == spots[tile]
    {
      var j := y - 4;
      while j <= y - 2
        invariant y - 4 <= j <= y - 1
        invariant forall tile: Tile :: tile in r <==> tile in spots || (x - 1 <= tile.x < i && y - 4 <= tile.y <= y - 2) || (tile.x == i && y - 4 <= tile.y < j)
        invariant forall tile: Tile :: (x - 1 <= tile.x < i && y - 4 <= tile.y <= y - 2) || (tile.x == i && y - 4 <= tile.y < j) ==> r[tile] == code
        invariant forall tile: Tile :: tile in spots && !((x - 1 <= tile.x < i && y - 4 <= tile.y <= y - 2) || (tile.x == i && y - 4 <= tile.y < j)) ==> r[tile] == spots[tile]
      {
        r := r[Tile(i, j) := code];
        j := j + 1;
      }
      i := i + 1;
    }
  }

  /**
   * `calculateSafespotAreas`: group the tiles of the safespot map by code.
   * Every tile lands in exactly the group of its own code, and every group is
   * non-empty.
   */
  method GroupByCode(spots: map<Tile, int>) returns (areas: map<int, set<Tile>>)
    ensures forall tile: Tile :: tile in spots ==> spots[tile] in areas && tile in areas[spots[tile]]
    ensures forall c, tile :: c in areas && tile in areas[c] ==> tile in spots && spots[tile] == c
    ensures forall c :: c in areas ==> areas[c] != {}
  {
    areas := map[];
    var left := spots.Keys;
    while left != {}
      invariant left <= spots.Keys
      invariant forall tile: Tile :: tile in spots && tile !in left ==> spots[tile] in areas && tile in areas[spots[tile]]
      invariant forall c, tile :: c in areas && tile in areas[c] ==> tile in spots && spots[tile] == c
      invariant forall c :: c in areas ==> areas[c] != {}
      decreases |left|
    {
      NonEmptyHasMember(left);
      var tile :| tile in left;
      var c := spots[tile];
      if c !in areas {
        areas := areas[c := {}];
      }
      areas := areas[c := areas[c] + {tile}];
      left := left - {tile};
    }
  }
}
