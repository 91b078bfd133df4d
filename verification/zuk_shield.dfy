/**
 * Dead reckoning of Zuk's shield. The shield slides left and right along
 * one row; its position is observed once per game tick. The tracker remembers
 * the last position, where the shield first started moving (its base), the
 * last non-zero movement (the direction), the last x where it came to rest
 * on each side, and a countdown of the ticks it still waits in a corner.
 * From these the shield's x when Zuk next attacks is predicted.
 */
module ZukShield {
  import opened InfernoTypes

  /**
   * The shield fields. `cornerTicks` is −2 until the shield is first seen
   * moving, −1 from then until the next tick pass (which sets Zuk's attack
   * timer), and 0 afterwards. `negativeX` and `positiveX` are −1 until the
   * shield first rests after moving in that direction.
   */
  datatype Tracker = Tracker(
    lastPosition: Option<Tile>,
    base: Option<Tile>,
    cornerTicks: int,
    negativeX: int,
    positiveX: int,
    lastNonZeroDelta: int,
    lastDelta: int,
    ticksLeftInCorner: int)

  /** The fields' initial values, as declared. */
  const Initial: Tracker := Tracker(None, None, -2, -1, -1, 0, 0, -1)

  /** What always holds of the tracker. */
  predicate Valid(s: Tracker)
  {
    (s.cornerTicks == -2 || s.cornerTicks == -1 || s.cornerTicks == 0) &&
    (s.cornerTicks == -2 <==> s.base.None?) &&
    -1 <= s.ticksLeftInCorner <= 4
  }

  /** When Zuk spawns the phase restarts: not yet moving, no last position, no base. */
  function ResetOnZukSpawn(s: Tracker): (r: Tracker)
    ensures Valid(s) ==> Valid(r)
    ensures r.cornerTicks == -2 && r.lastPosition.None? && r.base.None?
  {
    s.(cornerTicks := -2, lastPosition := None, base := None)
  }

  /** The tick pass sets Zuk's attack timer once the shield has started moving. */
  function StartAttackTimer(s: Tracker): (r: Tracker)
    requires s.cornerTicks == -1
    ensures Valid(s) ==> Valid(r)
    ensures r.cornerTicks == 0 && r.base == s.base
  {
    s.(cornerTicks := 0)
  }

  /**
   * One observation of the shield at `pos`. The first change of x while the
   * shield has not yet moved records the previous position as the base. The
   * x change (delta) updates the direction when non-zero; the shield leaving
   * a rest starts a four-tick corner countdown; a resting shield records its
   * x as the rest position on the side it last moved towards and counts the
   * corner countdown down.
   */
  function Observe(s: Tracker, pos: Tile): (r: Tracker)
    ensures Valid(s) ==> Valid(r)
    ensures r.lastPosition == Some(pos)
    ensures s.lastPosition.None? ==> r == s.(lastPosition := Some(pos))
    // the base is captured exactly once: on the first move, from the position before it
    ensures s.lastPosition.Some? && pos.x != s.lastPosition.value.x && s.cornerTicks == -2 ==>
      r.base == s.lastPosition && r.cornerTicks == -1
    ensures r.base != s.base ==> s.cornerTicks == -2 && r.base == s.lastPosition && r.cornerTicks == -1
    ensures s.cornerTicks != -2 ==> r.base == s.base && r.cornerTicks == s.cornerTicks
    // the rest positions change only while resting, to the resting x, on the side last moved towards
    ensures r.positiveX != s.positiveX ==>
      s.lastPosition.Some? && s.lastPosition.value.x == pos.x && s.lastNonZeroDelta > 0 && r.positiveX == pos.x
    ensures r.negativeX != s.negativeX ==>
      s.lastPosition.Some? && s.lastPosition.value.x == pos.x && s.lastNonZeroDelta < 0 && r.negativeX == pos.x
    // the direction follows the last actual move, and a move keeps both rest positions
    ensures s.lastPosition.Some? && pos.x != s.lastPosition.value.x ==>
      r.lastNonZeroDelta == pos.x - s.lastPosition.value.x && r.ticksLeftInCorner == (if s.lastDelta == 0 then 4 else s.ticksLeftInCorner)
    ensures s.lastPosition.Some? && pos.x != s.lastPosition.value.x ==> r.positiveX == s.positiveX && r.negativeX == s.negativeX
    // a resting shield keeps its direction, records its x on the side last moved towards and counts the corner wait down to 0
    ensures s.lastPosition.Some? && pos.x == s.lastPosition.value.x ==>
      r.lastNonZeroDelta == s.lastNonZeroDelta &&
      r.ticksLeftInCorner == (if s.ticksLeftInCorner > 0 then s.ticksLeftInCorner - 1 else s.ticksLeftInCorner)
    ensures s.lastPosition.Some? && pos.x == s.lastPosition.value.x && s.lastNonZeroDelta > 0 ==>
      r.positiveX == pos.x && r.negativeX == s.negativeX
    ensures s.lastPosition.Some? && pos.x == s.lastPosition.value.x && s.lastNonZeroDelta < 0 ==>
      r.negativeX == pos.x && r.positiveX == s.positiveX
    // the last delta is the x change of this observation
    ensures s.lastPosition.Some? ==> r.lastDelta == pos.x - s.lastPosition.value.x
  {
    var s1 :=
      if s.lastPosition.Some? && s.lastPosition.value.x != pos.x && s.cornerTicks == -2
      then s.(base := s.lastPosition, cornerTicks := -1)
      else s;
    var s2 :=
      if s1.lastPosition.None? then s1
      else
        var delta := pos.x - s1.lastPosition.value.x;
        var nonZero := if delta != 0 then delta else s1.lastNonZeroDelta;
        var corner := if s1.lastDelta == 0 && delta != 0 then 4 else s1.ticksLeftInCorner;
        var posX := if delta == 0 && nonZero > 0 then pos.x else s1.positiveX;
        var negX := if delta == 0 && nonZero < 0 then pos.x else s1.negativeX;
        var corner' := if delta == 0 && corner > 0 then corner - 1 else corner;
        s1.(lastNonZeroDelta := nonZero, ticksLeftInCorner := corner', positiveX := posX, negativeX := negX, lastDelta := delta);
    s2.(lastPosition := Some(pos))
  }

  /** The tracker after observing the shield at `pos` on `k` consecutive ticks. */
  function ObserveRepeatedly(s: Tracker, pos: Tile, k: nat): Tracker
  {
    if k == 0 then s else Observe(ObserveRepeatedly(s, pos, k - 1), pos)
  }

  /**
   * A shield that stays where it was last seen for `k` ticks keeps its
   * direction, waits out its corner countdown one tick at a time (never
   * below 0) and, after at least one such tick, has its x recorded as the
   * rest position on the side it last moved towards.
   */
  lemma {:induction false} RestingCountsDown(s: Tracker, pos: Tile, k: nat)
    requires s.lastPosition.Some? && s.lastPosition.value.x == pos.x
    ensures var r := ObserveRepeatedly(s, pos, k);
      r.lastNonZeroDelta == s.lastNonZeroDelta &&
      r.ticksLeftInCorner == (if s.ticksLeftInCorner <= 0 then s.ticksLeftInCorner else if k <= s.ticksLeftInCorner then s.ticksLeftInCorner - k else 0)
    ensures var r := ObserveRepeatedly(s, pos, k);
      k > 0 && s.lastNonZeroDelta > 0 ==> r.positiveX == pos.x && r.negativeX == s.negativeX
    ensures var r := ObserveRepeatedly(s, pos, k);
      k > 0 && s.lastNonZeroDelta < 0 ==> r.negativeX == pos.x && r.positiveX == s.positiveX
    ensures var r := ObserveRepeatedly(s, pos, k);
      k > 0 ==> r.lastDelta == 0 && r.lastPosition == Some(pos)
  {
    if k > 0 {
      RestingCountsDown(s, pos, k - 1);
      var prev := ObserveRepeatedly(s, pos, k - 1);
      assert prev.lastPosition.Some? && prev.lastPosition.value.x == pos.x;
    }
  }

  /**
   * The shield's x after one attack interval, in one Zuk's reckoning:
   * `ticks` is Zuk's ticks-till-attack (one less before the final phase).
   * Fewer than one remaining tick means: in the final phase, no prediction;
   * otherwise a full ten-tick cycle. Moving right the shield advances that
   * many tiles; when that passes the right rest position, the remaining
   * corner wait is subtracted, and if still past it the shield bounces back
   * by the overshoot; moving left is the mirror image.
   */
  function PredictStep(s: Tracker, x: int, zukTicks: int, finalPhase: bool): (r: Option<int>)
    ensures r.None? <==> finalPhase && zukTicks < 1
    ensures r.Some? && s.lastNonZeroDelta > 0 ==> r.value <= s.positiveX
    ensures r.Some? && s.lastNonZeroDelta <= 0 ==> r.value >= s.negativeX
  {
    var ticks := if finalPhase then zukTicks else zukTicks - 1;
    if ticks < 1 && finalPhase then None
    else
      var t := if ticks < 1 then 10 else ticks;
      if s.lastNonZeroDelta > 0 then
        var next := x + t;
        if next <= s.positiveX then Some(next)
        else
          var waited := next - s.ticksLeftInCorner;
          if waited <= s.positiveX then Some(s.positiveX) else Some(s.positiveX - waited + s.positiveX)
      else
        var next := x - t;
        if next >= s.negativeX then Some(next)
        else
          var waited := next + s.ticksLeftInCorner;
          if waited >= s.negativeX then Some(s.negativeX) else Some(s.negativeX - waited + s.negativeX)
  }

  /** Away from the corner the shield moves one tile per tick; past it, it bounces back by exactly the overshoot. */
  lemma PredictStepMoves(s: Tracker, x: int, zukTicks: int)
    requires zukTicks >= 2 && s.lastNonZeroDelta > 0
    ensures x + zukTicks - 1 <= s.positiveX ==> PredictStep(s, x, zukTicks, false) == Some(x + zukTicks - 1)
    ensures x + zukTicks - 1 > s.positiveX && x + zukTicks - 1 - s.ticksLeftInCorner > s.positiveX ==>
      PredictStep(s, x, zukTicks, false) == Some(s.positiveX - (x + zukTicks - 1 - s.ticksLeftInCorner - s.positiveX))
  {
  }

  ghost predicate HasZuk(rs: seq<Npc>)
  {
    exists i :: 0 <= i < |rs| && rs[i].kind == Zuk
  }

  /** The reckoning over the roster: every Zuk entry advances the estimate, starting from the current x. */
  function PredictAll(s: Tracker, x: int, rs: seq<Npc>, finalPhase: bool): (r: Option<int>)
    ensures r.None? ==> finalPhase
  {
    if |rs| == 0 then Some(x)
    else
      var prev := PredictAll(s, x, rs[..|rs| - 1], finalPhase);
      var n := rs[|rs| - 1];
      if prev.None? || n.kind != Zuk then prev else PredictStep(s, prev.value, n.ticks, finalPhase)
  }

  /** With Zuk on the roster, the predicted x never passes the rest position on the side the shield is moving to. */
  lemma {:induction false} PredictAllBounded(s: Tracker, x: int, rs: seq<Npc>, finalPhase: bool)
    requires HasZuk(rs)
    ensures var r := PredictAll(s, x, rs, finalPhase);
      r.Some? ==> (if s.lastNonZeroDelta > 0 then r.value <= s.positiveX else r.value >= s.negativeX)
  {
    var pre := rs[..|rs| - 1];
    var n := rs[|rs| - 1];
    if n.kind != Zuk {
      var i :| 0 <= i < |rs| && rs[i].kind == Zuk;
      assert pre[i].kind == Zuk;
      PredictAllBounded(s, x, pre, finalPhase);
    }
  }

  /**
   * `drawZukPredictedSafespot`'s reckoning: no prediction until both rest
   * positions are known; otherwise the reckoning over the roster from the
   * shield's current x, abandoned (no prediction) when a Zuk in the final
   * phase has no ticks left.
   */
  method PredictShieldX(s: Tracker, shieldX: int, roster: seq<Npc>, finalPhase: bool) returns (r: Option<int>)
    ensures s.positiveX == -1 || s.negativeX == -1 ==> r.None?
    ensures s.positiveX != -1 && s.negativeX != -1 ==> r == PredictAll(s, shieldX, roster, finalPhase)
  {
    if s.positiveX == -1 || s.negativeX == -1 {
      return None;
    }
    var x := shieldX;
    var i := 0;
    while i < |roster|
      invariant 0 <= i <= |roster|
      invariant PredictAll(s, shieldX, roster[..i], finalPhase) == Some(x)
    {
      assert roster[..i + 1][..i] == roster[..i];
      var n := roster[i];
      if n.kind == Zuk {
        var ticks := if finalPhase then n.ticks else n.ticks - 1;
        if ticks < 1 {
          if finalPhase {
            PredictAllStops(s, shieldX, roster, finalPhase, i + 1);
            return None;
          }
          ticks := 10;
        }
        if s.lastNonZeroDelta > 0 {
          x := x + ticks;
          if x > s.positiveX {
            x := x - s.ticksLeftInCorner;
            if x <= s.positiveX {
              x := s.positiveX;
            } else {
              x := s.positiveX - x + s.positiveX;
            }
          }
        } else {
          x := x - ticks;
          if x < s.negativeX {
            x := x + s.ticksLeftInCorner;
            if x >= s.negativeX {
              x := s.negativeX;
            } else {
              x := s.negativeX - x + s.negativeX;
            }
          }
        }
      }
      i := i + 1;
    }
    assert roster[..|roster|] == roster;
    r := Some(x);
  }

  /** Once the reckoning is abandoned it stays abandoned over the rest of the roster. */
  lemma {:induction false} PredictAllStops(s: Tracker, x: int, rs: seq<Npc>, finalPhase: bool, k: nat)
    requires k <= |rs| && PredictAll(s, x, rs[..k], finalPhase).None?
    ensures PredictAll(s, x, rs, finalPhase).None?
    decreases |rs| - k
  {
    if k < |rs| {
      assert rs[..k + 1][..k] == rs[..k];
      PredictAllStops(s, x, rs, finalPhase, k + 1);
    } else {
      assert rs[..k] == rs;
    }
  }
}
