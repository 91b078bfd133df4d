/**
 * The safespot drawing of the NPC overlays (both overlays draw the same
 * way). In tile mode every safespot tile with a code from 0 to 6 is drawn in
 * its code's colour. In area mode each code's area is outlined: every
 * projected tile contributes its four canvas edges, the squared edge length
 * is averaged over all of them, a sixth of that average is the squared
 * tolerance, and only the edges no other edge matches within the tolerance
 * (in either direction) are drawn, which leaves the area's outline and drops
 * the edges two neighbouring tiles share.
 */
module Outline {
  import opened InfernoTypes
  import Safespots

  datatype Colour = White | Red | Green | Blue | Yellow | Magenta | Cyan

  /** How an area is drawn: its edge colour, the dash colour of a two-style area, and its fill. */
  datatype AreaStyle = AreaStyle(edge: Colour, dash: Option<Colour>, fill: Colour)

  /** The colour `renderIndividualTilesSafespots` draws a tile of each code in; codes above 6 (and negative ones) are skipped. */
  function TileColour(code: int): (r: Option<Colour>)
    ensures r.Some? <==> 0 <= code <= 6
    ensures r == Some(White) <==> code == 0
  {
    match code
    case 0 => Some(White)
    case 1 => Some(Red)
    case 2 => Some(Green)
    case 3 => Some(Blue)
    case 4 => Some(Yellow)
    case 5 => Some(Magenta)
    case 6 => Some(Cyan)
    case _ => None
  }

  /** The style `renderAreaSafepots` outlines each code's area in; the same codes are skipped. */
  function AreaStyleOf(code: int): (r: Option<AreaStyle>)
    ensures r.Some? <==> TileColour(code).Some?
    ensures r.Some? ==> r.value.fill == TileColour(code).value
    ensures r.Some? ==> (r.value.dash.Some? <==> 4 <= code <= 6)
  {
    match code
    case 0 => Some(AreaStyle(White, None, White))
    case 1 => Some(AreaStyle(Red, None, Red))
    case 2 => Some(AreaStyle(Green, None, Green))
    case 3 => Some(AreaStyle(Blue, None, Blue))
    case 4 => Some(AreaStyle(Red, Some(Green), Yellow))
    case 5 => Some(AreaStyle(Red, Some(Blue), Magenta))
    case 6 => Some(AreaStyle(Green, Some(Blue), Cyan))
    case _ => None
  }

  /** The colour of each attack style: melee red, ranged green, magic blue. */
  function StyleColour(a: Attack): Colour
  {
    match a
    case Melee => Red
    case Ranged => Green
    case Magic => Blue
    case Unknown => White
  }

  /** The colours an area's edges are drawn in. */
  function EdgeColours(s: AreaStyle): set<Colour>
  {
    {s.edge} + (if s.dash.Some? then {s.dash.value} else {})
  }

  /**
   * The two modes draw the same codes, an area is filled in its tiles'
   * colour, and the edges of an area carry exactly the colours of the styles
   * that reach it (white for a safe area); the all-styles code 7 is never drawn.
   */
  lemma StylesMatchCodes(code: int)
    ensures AreaStyleOf(code).Some? <==> TileColour(code).Some?
    ensures AreaStyleOf(code).Some? <==> 0 <= code <= 6
    ensures AreaStyleOf(code).Some? ==> AreaStyleOf(code).value.fill == TileColour(code).value
    ensures 1 <= code <= 6 ==>
      EdgeColours(AreaStyleOf(code).value) == set a | a in Safespots.Styles(code) :: StyleColour(a)
    ensures code == 0 ==> EdgeColours(AreaStyleOf(code).value) == {White}
  {
    if 1 <= code <= 6 {
      var s := Safespots.Styles(code);
      var cs := set a | a in s :: StyleColour(a);
      if code == 4 {
        assert s == {Melee, Ranged};
        assert Red in cs && Green in cs;
      } else if code == 5 {
        assert s == {Melee, Magic};
        assert Red in cs && Blue in cs;
      } else if code == 6 {
        assert s == {Ranged, Magic};
        assert Green in cs && Blue in cs;
      } else if code == 1 {
        assert s == {Melee};
        assert Red in cs;
      } else if code == 2 {
        assert s == {Ranged};
        assert Green in cs;
      } else {
        assert s == {Magic};
        assert Blue in cs;
      }
    }
  }

  datatype Point = Point(x: int, y: int)
  datatype Edge = Edge(a: Point, b: Point)

  /** A tile's projected canvas polygon: its four corners in order. */
  datatype Quad = Quad(p0: Point, p1: Point, p2: Point, p3: Point)

  /** Squared distance between two canvas points. */
  function DistSq(p: Point, q: Point): int
  {
    Square(p.x - q.x) + Square(p.y - q.y)
  }

  /** `Math.pow(d, 2)`, exact on int. */
  function Square(d: int): (s: int)
    ensures s >= 0 && (s == 0 <==> d == 0)
  {
    if d >= 1 then
      MulMono(1, d, d);
      d * d
    else if d <= -1 then
      MulMono(d, -1, -d);
      d * d
    else
      d * d
  }

  /** Squared distance is symmetric, never negative, and zero only between equal points. */
  lemma DistSqProperties(p: Point, q: Point)
    ensures DistSq(p, q) == DistSq(q, p) && DistSq(p, q) >= 0
    ensures DistSq(p, q) == 0 <==> p == q
  {
    assert Square(p.x - q.x) == Square(q.x - p.x) by {
      assert (p.x - q.x) * (p.x - q.x) == (q.x - p.x) * (q.x - p.x);
    }
    assert Square(p.y - q.y) == Square(q.y - p.y) by {
      assert (p.y - q.y) * (p.y - q.y) == (q.y - p.y) * (q.y - p.y);
    }
  }

  /** `pointEqualsPoint`: within the squared tolerance. */
  predicate PointEqualsPoint(p: Point, q: Point, tol: int)
    ensures PointEqualsPoint(p, q, tol) ==> tol >= 0
    ensures p == q ==> (PointEqualsPoint(p, q, tol) <==> tol >= 0)
  {
    DistSq(p, q) <= tol
  }

  /** `edgeEqualsEdge`: the endpoints match pairwise, in the same or in the reverse direction. */
  predicate EdgeEqualsEdge(e: Edge, f: Edge, tol: int)
    ensures EdgeEqualsEdge(e, f, tol) ==> tol >= 0
    ensures f == e || f == Edge(e.b, e.a) ==> (EdgeEqualsEdge(e, f, tol) <==> tol >= 0)
  {
    (PointEqualsPoint(e.a, f.a, tol) && PointEqualsPoint(e.b, f.b, tol)) ||
    (PointEqualsPoint(e.a, f.b, tol) && PointEqualsPoint(e.b, f.a, tol))
  }

  /** Edge matching is symmetric; with a non-negative tolerance an edge matches itself and its reverse; with zero, only those. */
  lemma EdgeEqualsProperties(e: Edge, f: Edge, tol: int)
    ensures EdgeEqualsEdge(e, f, tol) <==> EdgeEqualsEdge(f, e, tol)
    ensures tol >= 0 ==> EdgeEqualsEdge(e, e, tol) && EdgeEqualsEdge(e, Edge(e.b, e.a), tol)
    ensures tol == 0 ==> (EdgeEqualsEdge(e, f, tol) <==> f == e || f == Edge(e.b, e.a))
  {
    DistSqProperties(e.a, f.a);
    DistSqProperties(e.b, f.b);
    DistSqProperties(e.a, f.b);
    DistSqProperties(e.b, f.a);
    DistSqProperties(e.a, e.b);
    DistSqProperties(e.a, e.a);
    DistSqProperties(e.b, e.b);
  }

  /** The four edges of a tile, corner to corner and back to the first. */
  function QuadEdges(q: Quad): seq<Edge>
  {
    [Edge(q.p0, q.p1), Edge(q.p1, q.p2), Edge(q.p2, q.p3), Edge(q.p3, q.p0)]
  }

  /** The edges of every tile that projects onto the canvas, in tile order; a tile that does not project adds none. */
  function AllEdges(tiles: seq<Option<Quad>>): (r: seq<Edge>)
    ensures |r| % 4 == 0
  {
    if |tiles| == 0 then []
    else
      var t := tiles[|tiles| - 1];
      AllEdges(tiles[..|tiles| - 1]) + (if t.Some? then QuadEdges(t.value) else [])
  }

  /** Each projected tile contributes all four of its edges. */
  lemma {:induction false} TileEdgesCollected(tiles: seq<Option<Quad>>, k: nat)
    requires k < |tiles| && tiles[k].Some?
    ensures forall e :: e in QuadEdges(tiles[k].value) ==> e in AllEdges(tiles)
  {
    var last := |tiles| - 1;
    if k < last {
      assert tiles[..last][k] == tiles[k];
      TileEdgesCollected(tiles[..last], k);
    }
  }

  /** The summed squared lengths of the edges. */
  function SumSq(edges: seq<Edge>): (s: int)
    ensures s >= 0
  {
    if |edges| == 0 then 0 else SumSq(edges[..|edges| - 1]) + DistSq(edges[|edges| - 1].a, edges[|edges| - 1].b)
  }

  /** Appending edges adds their squared lengths. */
  lemma {:induction false} SumSqAppend(xs: seq<Edge>, ys: seq<Edge>)
    ensures SumSq(xs + ys) == SumSq(xs) + SumSq(ys)
    decreases |ys|
  {
    if |ys| > 0 {
      var zs := xs + ys;
      assert zs[..|zs| - 1] == xs + ys[..|ys| - 1];
      SumSqAppend(xs, ys[..|ys| - 1]);
    } else {
      assert xs + ys == xs;
    }
  }

  /** A tile's four edges add their four squared lengths. */
  lemma QuadSumSq(q: Quad)
    ensures SumSq(QuadEdges(q)) == DistSq(q.p0, q.p1) + DistSq(q.p1, q.p2) + DistSq(q.p2, q.p3) + DistSq(q.p3, q.p0)
  {
    var e0, e1, e2, e3 := Edge(q.p0, q.p1), Edge(q.p1, q.p2), Edge(q.p2, q.p3), Edge(q.p3, q.p0);
    var s1, s2, s3, s4 := [e0], [e0, e1], [e0, e1, e2], QuadEdges(q);
    assert s1[..0] == [] && s2[..1] == s1 && s3[..2] == s2 && s4[..3] == s3;
    assert SumSq(s1) == DistSq(q.p0, q.p1);
    assert SumSq(s2) == SumSq(s1) + DistSq(q.p1, q.p2);
    assert SumSq(s3) == SumSq(s2) + DistSq(q.p2, q.p3);
    assert SumSq(s4) == SumSq(s3) + DistSq(q.p3, q.p0);
  }

  /** The edge-collecting loop: every projected tile adds its four edges and their squared lengths. */
  method CollectEdges(tiles: seq<Option<Quad>>) returns (edges: seq<Edge>, sizeSq: int)
    ensures edges == AllEdges(tiles)
    ensures sizeSq == SumSq(edges)
  {
    edges := [];
    sizeSq := 0;
    var i := 0;
    while i < |tiles|
      invariant 0 <= i <= |tiles|
      invariant edges == AllEdges(tiles[..i])
      invariant sizeSq == SumSq(edges)
    {
      assert tiles[..i + 1][..i] == tiles[..i];
      if tiles[i].Some? {
        var q := tiles[i].value;
        var added := QuadEdges(q);
        SumSqAppend(edges, added);
        QuadSumSq(q);
        sizeSq := sizeSq + DistSq(q.p0, q.p1) + DistSq(q.p1, q.p2) + DistSq(q.p2, q.p3) + DistSq(q.p3, q.p0);
        edges := edges + added;
      }
      i := i + 1;
    }
    assert tiles[..|tiles|] == tiles;
  }

  /** The squared tolerance: the average squared edge length, divided by six, both divisions on int. */
  function Tolerance(sizeSq: int, count: int): (tol: int)
    requires sizeSq >= 0 && count > 0
    ensures 0 <= tol && 6 * tol * count <= sizeSq
  {
    var average := sizeSq / count;
    MulMono(6 * (average / 6), average, count);
    average / 6
  }

  /** Whether no other edge matches edge `i`. */
  predicate Unmatched(edges: seq<Edge>, i: nat, tol: int)
    requires i < |edges|
  {
    forall j :: 0 <= j < |edges| && j != i ==> !EdgeEqualsEdge(edges[i], edges[j], tol)
  }

  /** The unmatched edges among the first `n`, in order. */
  function KeptUpTo(edges: seq<Edge>, tol: int, n: nat): seq<Edge>
    requires n <= |edges|
  {
    if n == 0 then []
    else KeptUpTo(edges, tol, n - 1) + (if Unmatched(edges, n - 1, tol) then [edges[n - 1]] else [])
  }

  /** The edges drawn: exactly the unmatched ones, each at its own place. */
  lemma {:induction false} KeptMeaning(edges: seq<Edge>, tol: int, n: nat)
    requires n <= |edges|
    ensures forall e :: e in KeptUpTo(edges, tol, n) <==> exists i :: 0 <= i < n && edges[i] == e && Unmatched(edges, i, tol)
  {
    if n > 0 {
      KeptMeaning(edges, tol, n - 1);
    }
  }

  /** The dedup loop: an edge is drawn unless a later or earlier edge matches it; the scan stops at the first match. */
  method UniqueEdges(edges: seq<Edge>, tol: int) returns (kept: seq<Edge>)
    ensures kept == KeptUpTo(edges, tol, |edges|)
  {
    kept := [];
    var i := 0;
    while i < |edges|
      invariant 0 <= i <= |edges|
      invariant kept == KeptUpTo(edges, tol, i)
    {
      var duplicate := false;
      var j := 0;
      while j < |edges|
        invariant 0 <= j <= |edges|
        invariant forall k :: 0 <= k < j && k != i ==> !EdgeEqualsEdge(edges[i], edges[k], tol)
      {
        if i != j && EdgeEqualsEdge(edges[i], edges[j], tol) {
          duplicate := true;
          break;
        }
        j := j + 1;
      }
      if !duplicate {
        kept := kept + [edges[i]];
      }
      i := i + 1;
    }
  }

  /** An edge two tiles share (in the same or the reverse direction) is never drawn. */
  lemma SharedEdgeNotDrawn(edges: seq<Edge>, tol: int, i: nat, j: nat)
    requires tol >= 0 && i < |edges| && j < |edges| && i != j
    requires edges[j] == edges[i] || edges[j] == Edge(edges[i].b, edges[i].a)
    ensures !Unmatched(edges, i, tol) && !Unmatched(edges, j, tol)
  {
    EdgeEqualsProperties(edges[i], edges[j], tol);
  }

  /** One area's outline: its style and the edges drawn, or nothing when the code is skipped or no tile projects. */
  datatype Drawing = Drawing(style: AreaStyle, fills: seq<Quad>, edges: seq<Edge>)

  /** The projected tiles, in order. */
  function Projected(tiles: seq<Option<Quad>>): seq<Quad>
  {
    if |tiles| == 0 then []
    else Projected(tiles[..|tiles| - 1]) + (if tiles[|tiles| - 1].Some? then [tiles[|tiles| - 1].value] else [])
  }

  /** Four edges per projected tile: no edges exactly when no tile projects. */
  lemma {:induction false} NoEdgesNoTiles(tiles: seq<Option<Quad>>)
    ensures |AllEdges(tiles)| == 4 * |Projected(tiles)|
  {
    if |tiles| > 0 {
      NoEdgesNoTiles(tiles[..|tiles| - 1]);
    }
  }

  /**
   * One pass of `renderAreaSafepots` for the area of `code`, given each of
   * its tiles' canvas polygon (None where the tile does not project): the
   * projected tiles are filled in the area's fill colour, and the unmatched
   * edges are drawn under the tolerance computed from all of them.
   */
  method OutlineArea(code: int, tiles: seq<Option<Quad>>) returns (d: Option<Drawing>)
    ensures AreaStyleOf(code).None? ==> d.None?
    ensures AreaStyleOf(code).Some? && Projected(tiles) == [] ==> d.None?
    ensures AreaStyleOf(code).Some? && |AllEdges(tiles)| > 0 ==>
      d.Some? && d.value.style == AreaStyleOf(code).value && d.value.fills == Projected(tiles) &&
      d.value.edges == KeptUpTo(AllEdges(tiles), Tolerance(SumSq(AllEdges(tiles)), |AllEdges(tiles)|), |AllEdges(tiles)|)
  {
    if code > 6 {
      return None;
    }
    var style := AreaStyleOf(code);
    if style.None? {
      return None;
    }
    var edges, sizeSq := CollectEdges(tiles);
    NoEdgesNoTiles(tiles);
    if |edges| <= 0 {
      return None;
    }
    var average := sizeSq / |edges|;
    var tol := average / 6;
    var kept := UniqueEdges(edges, tol);
    var fills := ProjectedTiles(tiles);
    d := Some(Drawing(style.value, fills, kept));
  }

  /** The filling loop: the projected tiles in order. */
  method ProjectedTiles(tiles: seq<Option<Quad>>) returns (fills: seq<Quad>)
    ensures fills == Projected(tiles)
  {
    fills := [];
    var i := 0;
    while i < |tiles|
      invariant 0 <= i <= |tiles|
      invariant fills == Projected(tiles[..i])
    {
      assert tiles[..i + 1][..i] == tiles[..i];
      if tiles[i].Some? {
        fills := fills + [tiles[i].value];
      }
      i := i + 1;
    }
    assert tiles[..|tiles|] == tiles;
  }

  /** Two tiles sharing the side from `b` to `c` (each walks it in its own direction): neither copy of that side is drawn, at any tolerance. */
  lemma NeighbourSideDropped(a: Point, b: Point, c: Point, d: Point, e: Point, f: Point, tol: int)
    requires tol >= 0
    ensures var edges := AllEdges([Some(Quad(a, b, c, d)), Some(Quad(b, e, f, c))]);
      |edges| == 8 && edges[1] == Edge(b, c) && edges[7] == Edge(c, b) &&
      !Unmatched(edges, 1, tol) && !Unmatched(edges, 7, tol)
  {
    var tiles := [Some(Quad(a, b, c, d)), Some(Quad(b, e, f, c))];
    assert tiles[..1] == [Some(Quad(a, b, c, d))];
    assert tiles[..1][..0] == [];
    assert AllEdges(tiles[..1]) == QuadEdges(Quad(a, b, c, d));
    var edges := AllEdges(tiles);
    assert edges == QuadEdges(Quad(a, b, c, d)) + QuadEdges(Quad(b, e, f, c));
    SharedEdgeNotDrawn(edges, tol, 1, 7);
  }
}
