/** Stamps: a tile drawn as a grid of one-glyph strings, the track painter
    that fills it, and the copy of a stamp onto the terminal screen.

    A checked vector access that would throw ends the program, so every
    operation that indexes a stamp returns an Option and None stands for
    that throw.
 */
module Stamps {
  import opened Common
  import opened Geometry
  import opened Tiles

  // ---------------------------------------------------------------------
  // Glyphs

  /** The empty cell. */
  const Blank: string := " "

  /** The box-drawing glyph of a twist. */
  function TwistPix(t: Twist): (r: string)
    ensures |r| == 1
    ensures r == Blank <==> t == ZZ
  {
    match t
    case ZZ => " "
    case EN => "╰"
    case ES => "╭"
    case EW => "─"
    case NS => "│"
    case NW => "╯"
    case SW => "╮"
    case XX => "┼"
  }

  /** Distinct twists are drawn with distinct glyphs. */
  lemma TwistPixInjective(a: Twist, b: Twist)
    ensures TwistPix(a) == TwistPix(b) ==> a == b
  {
  }

  // ---------------------------------------------------------------------
  // Stamps

  /** A width x height grid of glyphs stored row by row. */
  datatype Stamp = Stamp(width: int, height: int, pix: seq<string>)

  predicate Valid(s: Stamp) {
    0 <= s.width && 0 <= s.height && |s.pix| == s.width * s.height
  }

  /** A freshly constructed stamp: every cell holds the empty string. */
  function NewStamp(width: nat, height: nat): (r: Stamp)
    ensures Valid(r) && r.width == width && r.height == height
    ensures forall j :: 0 <= j < |r.pix| ==> r.pix[j] == ""
  {
    Stamp(width, height, seq(width * height, _ => ""))
  }

  /** Every cell becomes the blank glyph; the shape is kept. */
  function BlankOut(s: Stamp): (r: Stamp)
    ensures r.width == s.width && r.height == s.height && |r.pix| == |s.pix|
    ensures forall j :: 0 <= j < |r.pix| ==> r.pix[j] == Blank
  {
    s.(pix := seq(|s.pix|, _ => Blank))
  }

  /** The row-major index of a cell. Nothing bounds x by the width, so a
      cell past the east edge lands on the next row. */
  function Loc(width: int, pt: Coord): int {
    pt.y * width + pt.x
  }

  /** The cell stored at an index of a row-major grid. */
  function CellOf(width: int, n: int): Coord
    requires width > 0
  {
    Coord(n % width, n / width)
  }

  /** On a width x height grid the cells and the indices below width * height
      correspond one to one. */
  lemma LocInRange(width: int, height: int, pt: Coord)
    requires 0 <= pt.x < width && 0 <= pt.y < height
    ensures 0 <= Loc(width, pt) < width * height
    ensures CellOf(width, Loc(width, pt)) == pt
  {
    var n := Loc(width, pt);
    assert pt.y * width <= (height - 1) * width by {
      MulMonotone(pt.y, height - 1, width);
    }
    DivModUnique(n, width, pt.y, pt.x);
  }

  lemma CellOfInRange(width: int, height: int, n: int)
    requires width > 0 && 0 <= n < width * height
    ensures 0 <= CellOf(width, n).x < width && 0 <= CellOf(width, n).y < height
    ensures Loc(width, CellOf(width, n)) == n
  {
    var q := n / width;
    if q >= height {
      MulMonotone(height, q, width);
      assert false;
    }
  }

  lemma MulMonotone(a: int, b: int, c: int)
    requires a <= b && 0 <= c
    ensures a * c <= b * c
  {
    assert b * c - a * c == (b - a) * c;
  }

  lemma DivModUnique(n: int, d: int, q: int, m: int)
    requires d > 0 && 0 <= m < d && n == q * d + m
    ensures n / d == q && n % d == m
  {
    var q', m' := n / d, n % d;
    assert (q - q') * d == m' - m;
    if q > q' {
      MulMonotone(1, q - q', d);
    } else if q < q' {
      MulMonotone(1, q' - q, d);
    }
  }

  /** Reading a cell; None when its index is outside the grid. */
  function At(s: Stamp, pt: Coord): (r: Option<string>)
    ensures r.Some? <==> 0 <= Loc(s.width, pt) < |s.pix|
    ensures r.Some? ==> r.value == s.pix[Loc(s.width, pt)]
  {
    var n := Loc(s.width, pt);
    if 0 <= n < |s.pix| then Some(s.pix[n]) else None
  }

  /** Writing a cell; None when its index is outside the grid. */
  function Put(s: Stamp, pt: Coord, v: string): (r: Option<Stamp>)
    ensures r.Some? <==> 0 <= Loc(s.width, pt) < |s.pix|
    ensures r.Some? ==> r.value.width == s.width && r.value.height == s.height
    ensures r.Some? ==> |r.value.pix| == |s.pix|
    ensures r.Some? ==> At(r.value, pt) == Some(v)
    ensures r.Some? ==> forall j :: 0 <= j < |s.pix| && j != Loc(s.width, pt) ==> r.value.pix[j] == s.pix[j]
  {
    var n := Loc(s.width, pt);
    if 0 <= n < |s.pix| then Some(s.(pix := s.pix[n := v])) else None
  }

  // ---------------------------------------------------------------------
  // Painting a trail of crumbs

  /** One glyph to be written at one cell. */
  datatype Crumb = Crumb(pt: Coord, shape: string)

  type Trail = seq<Crumb>

  /** Every crumb of the trail lands inside a grid of `size` cells. */
  predicate Fits(width: int, size: int, trail: Trail) {
    forall i :: 0 <= i < |trail| ==> 0 <= Loc(width, trail[i].pt) < size
  }

  /** The position of the last crumb landing on index j, or -1 if none does. */
  function LastWrite(width: int, trail: Trail, j: int): (r: int)
    ensures -1 <= r < |trail|
    ensures r >= 0 ==> Loc(width, trail[r].pt) == j
    ensures forall k :: r < k < |trail| ==> Loc(width, trail[k].pt) != j
    decreases |trail|
  {
    if trail == [] then -1
    else if Loc(width, trail[|trail| - 1].pt) == j then |trail| - 1
    else LastWrite(width, trail[..|trail| - 1], j)
  }

  /** Writes the crumbs in order, each one over whatever the cell held. */
  function Paint(s: Stamp, trail: Trail): (r: Option<Stamp>)
    ensures r.Some? <==> Fits(s.width, |s.pix|, trail)
    ensures r.Some? ==> r.value.width == s.width && r.value.height == s.height
    ensures r.Some? ==> |r.value.pix| == |s.pix|
    ensures r.Some? ==> forall j :: 0 <= j < |s.pix| ==>
      r.value.pix[j] == (var k := LastWrite(s.width, trail, j); if k < 0 then s.pix[j] else trail[k].shape)
    decreases |trail|
  {
    if trail == [] then Some(s)
    else
      var last := trail[|trail| - 1];
      match Paint(s, trail[..|trail| - 1])
      case None => None
      case Some(p) => Put(p, last.pt, last.shape)
  }

  // ---------------------------------------------------------------------
  // Drawing a track

  /** The crumbs a track leaves before its finish cell: each visited cell
      but the last, with the glyph of the twist it is passed through with. */
  function TrackTrail(t: Track): (r: Trail)
    ensures |r| == |t.route|
    ensures forall i :: 0 <= i < |r| ==> r[i] == Crumb(TrackWalk(t)[i], TwistPix(Twists(t)[i]))
  {
    seq(|t.route|, i requires 0 <= i < |t.route| => Crumb(TrackWalk(t)[i], TwistPix(Twists(t)[i])))
  }

  /** Every cell the track visits has an index inside the grid. */
  predicate TrackFits(width: int, size: int, t: Track) {
    forall i :: 0 <= i <= |t.route| ==> 0 <= Loc(width, TrackWalk(t)[i]) < size
  }

  lemma TrackFitsTrail(s: Stamp, t: Track)
    requires TrackFits(s.width, |s.pix|, t)
    ensures Fits(s.width, |s.pix|, TrackTrail(t))
  {
    var trail, w := TrackTrail(t), TrackWalk(t);
    forall i | 0 <= i < |trail|
      ensures 0 <= Loc(s.width, trail[i].pt) < |s.pix|
    {
      assert trail[i].pt == w[i];
    }
  }

  lemma TrailFitsTrack(s: Stamp, t: Track)
    requires Fits(s.width, |s.pix|, TrackTrail(t))
    requires 0 <= Loc(s.width, TrackWalk(t)[|t.route|]) < |s.pix|
    ensures TrackFits(s.width, |s.pix|, t)
  {
    var trail, w := TrackTrail(t), TrackWalk(t);
    forall i | 0 <= i <= |t.route|
      ensures 0 <= Loc(s.width, w[i]) < |s.pix|
    {
      if i < |t.route| {
        assert trail[i].pt == w[i];
      }
    }
  }

  /** A track fits when its trail fits and so does its finish cell. */
  lemma TrackFitsSplit(s: Stamp, t: Track)
    ensures TrackFits(s.width, |s.pix|, t) <==>
      Fits(s.width, |s.pix|, TrackTrail(t)) && 0 <= Loc(s.width, TrackWalk(t)[|t.route|]) < |s.pix|
  {
    if TrackFits(s.width, |s.pix|, t) {
      TrackFitsTrail(s, t);
    }
    if Fits(s.width, |s.pix|, TrackTrail(t)) && 0 <= Loc(s.width, TrackWalk(t)[|t.route|]) < |s.pix| {
      TrailFitsTrack(s, t);
    }
  }

  /** Draws one track. Every cell but the last is overwritten with its twist;
      the last cell gets its twist only if it was blank, and the crossing
      glyph otherwise. */
  function AddTrackStamp(s: Stamp, t: Track): (r: Option<Stamp>)
    ensures r.Some? <==> TrackFits(s.width, |s.pix|, t)
    ensures r.Some? ==> r.value.width == s.width && r.value.height == s.height
    ensures r.Some? ==> |r.value.pix| == |s.pix|
  {
    var w, n := TrackWalk(t), |t.route|;
    TrackFitsSplit(s, t);
    match Paint(s, TrackTrail(t))
    case None => None
    case Some(p) => FinishWrite(p, w[n], Twists(t)[n])
  }

  /** What the finish cell of a track becomes, given what it held. */
  function FinishGlyph(held: string, tw: Twist): string {
    if held == Blank then TwistPix(tw) else TwistPix(XX)
  }

  /** Writes the finish cell of a track, which reads the cell first. */
  function FinishWrite(p: Stamp, f: Coord, tw: Twist): (r: Option<Stamp>)
    ensures r.Some? <==> 0 <= Loc(p.width, f) < |p.pix|
    ensures r.Some? ==> r.value.width == p.width && r.value.height == p.height
    ensures r.Some? ==> |r.value.pix| == |p.pix|
  {
    match At(p, f)
    case None => None
    case Some(held) => Put(p, f, FinishGlyph(held, tw))
  }

  /** The drawn stamp is the painted trail with the finish cell written. */
  lemma AddTrackStampSteps(s: Stamp, t: Track)
    requires TrackFits(s.width, |s.pix|, t)
    ensures Paint(s, TrackTrail(t)).Some?
    ensures var p := Paint(s, TrackTrail(t)).value;
      var f := TrackWalk(t)[|t.route|];
      0 <= Loc(s.width, f) < |p.pix| &&
      AddTrackStamp(s, t) == Put(p, f, FinishGlyph(p.pix[Loc(s.width, f)], Twists(t)[|t.route|]))
  {
    TrackFitsTrail(s, t);
    var p := Paint(s, TrackTrail(t)).value;
    var f := TrackWalk(t)[|t.route|];
    assert 0 <= Loc(s.width, f) < |p.pix|;
    assert AddTrackStamp(s, t) == FinishWrite(p, f, Twists(t)[|t.route|]);
    assert At(p, f) == Some(p.pix[Loc(s.width, f)]);
  }

  /** A cell of a painted stamp with one more cell written on top. */
  lemma PaintPutCell(s: Stamp, trail: Trail, f: Coord, v: string, j: int)
    requires Paint(s, trail).Some?
    requires Put(Paint(s, trail).value, f, v).Some?
    requires 0 <= j < |s.pix|
    ensures Put(Paint(s, trail).value, f, v).value.pix[j] ==
      if j == Loc(s.width, f) then v
      else (var k := LastWrite(s.width, trail, j); if k < 0 then s.pix[j] else trail[k].shape)
  {
    var p := Paint(s, trail).value;
    if j == Loc(s.width, f) {
      assert At(Put(p, f, v).value, f) == Some(v);
    }
  }

  /** A cell of a painted stamp. */
  lemma PaintCell(s: Stamp, trail: Trail, j: int)
    requires Paint(s, trail).Some?
    requires 0 <= j < |s.pix|
    ensures Paint(s, trail).value.pix[j] ==
      (var k := LastWrite(s.width, trail, j); if k < 0 then s.pix[j] else trail[k].shape)
  {
  }

  lemma NoWrite(width: int, trail: Trail, j: int)
    requires forall i :: 0 <= i < |trail| ==> Loc(width, trail[i].pt) != j
    ensures LastWrite(width, trail, j) == -1
  {
  }

  lemma OnlyWrite(width: int, trail: Trail, j: int, i: int)
    requires 0 <= i < |trail| && Loc(width, trail[i].pt) == j
    requires forall k :: i < k < |trail| ==> Loc(width, trail[k].pt) != j
    ensures LastWrite(width, trail, j) == i
  {
  }

  /** The track's trail passes cell i of its walk at step i. */
  lemma TrailAt(t: Track, i: int)
    requires 0 <= i < |t.route|
    ensures TrackTrail(t)[i].pt == TrackWalk(t)[i]
    ensures TrackTrail(t)[i].shape == TwistPix(Twists(t)[i])
  {
  }

  /** Cells the track does not visit keep their glyph. */
  lemma AddTrackStampFrame(s: Stamp, t: Track, j: int)
    requires TrackFits(s.width, |s.pix|, t)
    requires 0 <= j < |s.pix|
    requires forall i :: 0 <= i <= |t.route| ==> Loc(s.width, TrackWalk(t)[i]) != j
    ensures AddTrackStamp(s, t).value.pix[j] == s.pix[j]
  {
    AddTrackStampSteps(s, t);
    var trail, w, n := TrackTrail(t), TrackWalk(t), |t.route|;
    var p := Paint(s, trail).value;
    var v := FinishGlyph(p.pix[Loc(s.width, w[n])], Twists(t)[n]);
    PaintPutCell(s, trail, w[n], v, j);
    forall i | 0 <= i < |trail|
      ensures Loc(s.width, trail[i].pt) != j
    {
      TrailAt(t, i);
    }
    NoWrite(s.width, trail, j);
  }

  /** A cell passed through before the finish, and not visited again, shows
      the twist of that passage, whatever it held before: a track crossing
      earlier drawing there is not marked as a crossing. */
  lemma AddTrackStampCell(s: Stamp, t: Track, i: int)
    requires TrackFits(s.width, |s.pix|, t)
    requires 0 <= i < |t.route|
    requires forall k :: i < k <= |t.route| ==> Loc(s.width, TrackWalk(t)[k]) != Loc(s.width, TrackWalk(t)[i])
    ensures AddTrackStamp(s, t).value.pix[Loc(s.width, TrackWalk(t)[i])] == TwistPix(Twists(t)[i])
    ensures AddTrackStamp(s, t).value.pix[Loc(s.width, TrackWalk(t)[i])] != TwistPix(XX)
  {
    AddTrackStampSteps(s, t);
    var trail, w, n := TrackTrail(t), TrackWalk(t), |t.route|;
    var p := Paint(s, trail).value;
    var j := Loc(s.width, w[i]);
    var v := FinishGlyph(p.pix[Loc(s.width, w[n])], Twists(t)[n]);
    PaintPutCell(s, trail, w[n], v, j);
    forall k | i < k < |trail|
      ensures Loc(s.width, trail[k].pt) != j
    {
      TrailAt(t, k);
    }
    TrailAt(t, i);
    OnlyWrite(s.width, trail, j, i);
    TwistPixInjective(Twists(t)[i], XX);
  }

  /** A finish cell no earlier step of the track visited becomes the twist
      if it was blank and the crossing glyph otherwise. */
  lemma AddTrackStampFinishFresh(s: Stamp, t: Track)
    requires TrackFits(s.width, |s.pix|, t)
    requires forall i :: 0 <= i < |t.route| ==>
      Loc(s.width, TrackWalk(t)[i]) != Loc(s.width, TrackWalk(t)[|t.route|])
    ensures var f := Loc(s.width, TrackWalk(t)[|t.route|]);
      AddTrackStamp(s, t).value.pix[f] ==
        if s.pix[f] == Blank then TwistPix(Twists(t)[|t.route|]) else TwistPix(XX)
  {
    AddTrackStampSteps(s, t);
    var trail, w, n := TrackTrail(t), TrackWalk(t), |t.route|;
    var p := Paint(s, trail).value;
    var f := Loc(s.width, w[n]);
    forall i | 0 <= i < |trail|
      ensures Loc(s.width, trail[i].pt) != f
    {
      TrailAt(t, i);
    }
    NoWrite(s.width, trail, f);
    PaintCell(s, trail, f);
    var v := FinishGlyph(p.pix[f], Twists(t)[n]);
    PaintPutCell(s, trail, w[n], v, f);
  }

  /** A finish cell the track already passed through becomes the twist when
      that last passage was a U-turn (drawn blank) and the crossing glyph
      otherwise. */
  lemma AddTrackStampFinishRevisit(s: Stamp, t: Track, i: int)
    requires TrackFits(s.width, |s.pix|, t)
    requires 0 <= i < |t.route|
    requires Loc(s.width, TrackWalk(t)[i]) == Loc(s.width, TrackWalk(t)[|t.route|])
    requires forall k :: i < k < |t.route| ==>
      Loc(s.width, TrackWalk(t)[k]) != Loc(s.width, TrackWalk(t)[|t.route|])
    ensures var f := Loc(s.width, TrackWalk(t)[|t.route|]);
      AddTrackStamp(s, t).value.pix[f] ==
        if Twists(t)[i] == ZZ then TwistPix(Twists(t)[|t.route|]) else TwistPix(XX)
  {
    AddTrackStampSteps(s, t);
    var trail, w, n := TrackTrail(t), TrackWalk(t), |t.route|;
    var p := Paint(s, trail).value;
    var f := Loc(s.width, w[n]);
    forall k | i < k < |trail|
      ensures Loc(s.width, trail[k].pt) != f
    {
      TrailAt(t, k);
    }
    TrailAt(t, i);
    OnlyWrite(s.width, trail, f, i);
    PaintCell(s, trail, f);
    var v := FinishGlyph(p.pix[f], Twists(t)[n]);
    PaintPutCell(s, trail, w[n], v, f);
  }

  // ---------------------------------------------------------------------
  // Drawing a tile

  /** Every track of the list fits. */
  predicate TracksFit(width: int, size: int, ts: seq<Track>) {
    forall k :: 0 <= k < |ts| ==> TrackFits(width, size, ts[k])
  }

  lemma TracksFitSplit(width: int, size: int, ts: seq<Track>)
    requires ts != []
    ensures TracksFit(width, size, ts) <==>
      TracksFit(width, size, ts[..|ts| - 1]) && TrackFits(width, size, ts[|ts| - 1])
  {
    var front, last := ts[..|ts| - 1], ts[|ts| - 1];
    if TracksFit(width, size, ts) {
      forall k | 0 <= k < |front|
        ensures TrackFits(width, size, front[k])
      {
        assert front[k] == ts[k];
      }
      assert TrackFits(width, size, ts[|ts| - 1]);
    }
    if TracksFit(width, size, front) && TrackFits(width, size, last) {
      forall k | 0 <= k < |ts|
        ensures TrackFits(width, size, ts[k])
      {
        if k < |front| {
          assert front[k] == ts[k];
        }
      }
    }
  }

  /** Draws the tracks in order, stopping at the first that does not fit. */
  function StampTracks(s: Stamp, ts: seq<Track>): (r: Option<Stamp>)
    ensures r.Some? <==> TracksFit(s.width, |s.pix|, ts)
    ensures r.Some? ==> r.value.width == s.width && r.value.height == s.height
    ensures r.Some? ==> |r.value.pix| == |s.pix|
    decreases |ts|
  {
    if ts == [] then Some(s)
    else
      TracksFitSplit(s.width, |s.pix|, ts);
      match StampTracks(s, ts[..|ts| - 1])
      case None => None
      case Some(p) => AddTrackStamp(p, ts[|ts| - 1])
  }

  /** No track visits index j. */
  predicate Untouched(width: int, ts: seq<Track>, j: int) {
    forall k, i :: 0 <= k < |ts| && 0 <= i <= |ts[k].route| ==> Loc(width, TrackWalk(ts[k])[i]) != j
  }

  /** Cells no track visits keep their glyph. */
  lemma {:induction false} StampTracksFrame(s: Stamp, ts: seq<Track>, j: int)
    requires StampTracks(s, ts).Some?
    requires 0 <= j < |s.pix|
    requires Untouched(s.width, ts, j)
    ensures StampTracks(s, ts).value.pix[j] == s.pix[j]
    decreases |ts|
  {
    if ts != [] {
      var front, last := ts[..|ts| - 1], ts[|ts| - 1];
      assert Untouched(s.width, front, j) by {
        forall k, i | 0 <= k < |front| && 0 <= i <= |front[k].route|
          ensures Loc(s.width, TrackWalk(front[k])[i]) != j
        {
          assert front[k] == ts[k];
        }
      }
      StampTracksFrame(s, front, j);
      var p := StampTracks(s, front).value;
      AddTrackStampFrame(p, last, j);
    }
  }

  /** The decimal digit of d. */
  function Digit(d: nat): (c: char)
    requires d < 10
  {
    ('0' as int + d) as char
  }

  /** The number a string of decimal digits spells. */
  function DecimalValue(s: string): int
    decreases |s|
  {
    if s == [] then 0 else DecimalValue(s[..|s| - 1]) * 10 + (s[|s| - 1] as int - '0' as int)
  }

  /** The decimal spelling of a number: digits only, no leading zero, and
      spelling the number back. */
  function NatToString(n: nat): (r: string)
    ensures |r| >= 1
    ensures forall i :: 0 <= i < |r| ==> '0' <= r[i] <= '9'
    ensures r[0] == '0' ==> r == "0"
    ensures DecimalValue(r) == n
    decreases n
  {
    if n < 10 then [Digit(n)]
    else
      var front := NatToString(n / 10);
      var r := front + [Digit(n % 10)];
      assert r[..|r| - 1] == front;
      r
  }

  /** Different codes are written differently. */
  lemma NatToStringInjective(a: nat, b: nat)
    ensures NatToString(a) == NatToString(b) ==> a == b
  {
  }

  const TileCells: int := TileWidth * TileHeight

  /** Draws a tile: a blank 10 x 5 stamp, every track in order, then the
      tile's code written over the top-left cell. */
  function MakeTileStamp(m: TileMap, code: nat): (r: Option<Stamp>)
    ensures r.Some? <==> TracksFit(TileWidth, TileCells, m.tracks)
    ensures r.Some? ==> Valid(r.value) && r.value.width == TileWidth && r.value.height == TileHeight
    ensures r.Some? ==> |r.value.pix| == TileCells
    ensures r.Some? ==> At(r.value, Coord(0, 0)) == Some(NatToString(code))
    ensures r.Some? ==> forall j :: 0 < j < TileCells && Untouched(TileWidth, m.tracks, j) ==> r.value.pix[j] == Blank
  {
    var s := BlankOut(NewStamp(TileWidth, TileHeight));
    match StampTracks(s, m.tracks)
    case None => None
    case Some(p) =>
      assert forall j :: 0 < j < TileCells && Untouched(TileWidth, m.tracks, j) ==> p.pix[j] == Blank by {
        forall j | 0 < j < TileCells && Untouched(TileWidth, m.tracks, j)
          ensures p.pix[j] == Blank
        {
          StampTracksFrame(s, m.tracks, j);
        }
      }
      Put(p, Coord(0, 0), NatToString(code))
  }

  // ---------------------------------------------------------------------
  // Which tiles can be drawn

  /** A track that stays on the tile fits the tile's stamp. */
  lemma StaysInTileFits(t: Track)
    requires StaysInTile(t)
    ensures TrackFits(TileWidth, TileCells, t)
  {
    var w := TrackWalk(t);
    forall i | 0 <= i <= |t.route|
      ensures 0 <= Loc(TileWidth, w[i]) < TileCells
    {
      InTileAlongWalk(EntranceLoc(t.start), t.route, i);
      LocInRange(TileWidth, TileHeight, w[i]);
    }
  }

  /** A tile whose tracks are all sound can always be drawn. */
  lemma SoundTileStamps(m: TileMap, code: nat)
    requires SoundTile(m)
    ensures MakeTileStamp(m, code).Some?
  {
    forall k | 0 <= k < |m.tracks|
      ensures TrackFits(TileWidth, TileCells, m.tracks[k])
    {
      StaysInTileFits(m.tracks[k]);
    }
  }

  /** Every tile the game deals, with the correction, draws without error. */
  lemma BookStamps(code: nat)
    ensures forall i :: 1 <= i < |Book()| ==> MakeTileStamp(Book()[i], code).Some?
  {
    BookSound();
    forall i | 1 <= i < |Book()|
      ensures MakeTileStamp(Book()[i], code).Some?
    {
      SoundTileStamps(Book()[i], code);
    }
  }

  /** A track with an empty route visits only its start cell, which is on
      the tile, so the placeholder tile draws too. */
  lemma EmptyRouteFits(t: Track)
    requires t.route == []
    ensures TrackFits(TileWidth, TileCells, t)
  {
    var w := TrackWalk(t);
    assert w[0] == EntranceLoc(t.start);
    LocInRange(TileWidth, TileHeight, w[0]);
    forall i | 0 <= i <= |t.route|
      ensures 0 <= Loc(TileWidth, w[i]) < TileCells
    {
      assert i == 0;
    }
  }

  // ---------------------------------------------------------------------
  // The fourth track of tile 5 as listed

  /** A walk agrees with the walk of any longer-or-equal prefix of its route. */
  lemma WalkPrefix(pt: Coord, route: seq<Step>, m: nat, i: nat)
    requires i <= m <= |route|
    ensures Walk(pt, route)[i] == Walk(pt, route[..m])[i]
  {
    WalkIsReplay(pt, route, i);
    WalkIsReplay(pt, route[..m], i);
    assert route[..m][..i] == route[..i];
  }

  /** Without westward steps a walk never moves west of its start. */
  lemma {:induction false} NoWestKeepsColumn(pt: Coord, route: seq<Step>, i: nat)
    requires forall k :: 0 <= k < |route| ==> route[k] != W
    requires i <= |route|
    ensures Walk(pt, route)[i].x >= pt.x
    decreases i
  {
    if i > 0 {
      NoWestKeepsColumn(pt, route, i - 1);
      var w := Walk(pt, route);
      assert w[i] == Plus(w[i - 1], route[i - 1]);
    }
  }

  /** Every cell a walk visits within an on-tile prefix of its route is on
      the tile. */
  lemma PrefixOnTile(t: Track, m: nat, i: nat)
    requires i <= m <= |t.route|
    requires InTileAlong(EntranceLoc(t.start), t.route[..m])
    ensures InTile(TrackWalk(t)[i])
  {
    InTileAlongWalk(EntranceLoc(t.start), t.route[..m], i);
    WalkPrefix(EntranceLoc(t.start), t.route, m, i);
  }

  // Facts about the listed track, one per lemma. They are kept apart on
  // purpose: a proof that holds several facts about a literal track at once
  // lets the verifier unfold that track's walk again and again, and a
  // combined lemma costs far more than its parts.

  lemma StrayRouteLength() ensures |StrayTrack().route| == 7 { }

  lemma StrayPrefixOnTile()
    ensures InTileAlong(EntranceLoc(StrayTrack().start), StrayTrack().route[..6])
  {
    StrayTrackHead();
  }

  lemma StrayNoWest()
    ensures forall k :: 0 <= k < |StrayTrack().route| ==> StrayTrack().route[k] != W
  {
  }

  lemma StrayStartColumn() ensures EntranceLoc(StrayTrack().start).x == 6 { }

  /** The cells before the finish of a seven-step route that starts in
      column 6, never steps west and stays on the tile for six steps. */
  lemma SevenStepCells(t: Track, i: nat)
    requires |t.route| == 7
    requires InTileAlong(EntranceLoc(t.start), t.route[..6])
    requires forall k :: 0 <= k < |t.route| ==> t.route[k] != W
    requires EntranceLoc(t.start).x == 6
    requires i < |t.route|
    ensures InTile(TrackWalk(t)[i]) && TrackWalk(t)[i].x >= 6
  {
    PrefixOnTile(t, 6, i);
    NoWestKeepsColumn(EntranceLoc(t.start), t.route, i);
  }

  lemma StrayReplayEnd()
    ensures Replay(EntranceLoc(StrayTrack().start), StrayTrack().route) == Coord(10, 1)
  {
    StrayTrackEnd();
  }

  lemma StrayFinishCell()
    ensures TrackWalk(StrayTrack())[|StrayTrack().route|] == Coord(10, 1)
  {
    var t := StrayTrack();
    WalkEndsAtReplay(EntranceLoc(t.start), t.route);
    StrayTrackEnd();
  }

  /** A seven-step route like the listed one, ending at (10,1): every cell it
      visits has an index on the stamp, and none but the last has index 20. */
  lemma SevenStepFits(t: Track)
    requires |t.route| == 7
    requires InTileAlong(EntranceLoc(t.start), t.route[..6])
    requires forall k :: 0 <= k < |t.route| ==> t.route[k] != W
    requires EntranceLoc(t.start).x == 6
    requires Replay(EntranceLoc(t.start), t.route) == Coord(10, 1)
    ensures TrackFits(TileWidth, TileCells, t)
    ensures forall i :: 0 <= i < |t.route| ==> Loc(TileWidth, TrackWalk(t)[i]) != 20
  {
    var w := TrackWalk(t);
    WalkEndsAtReplay(EntranceLoc(t.start), t.route);
    LocInRange(TileWidth, TileHeight, Coord(0, 2));
    forall i | 0 <= i <= |t.route|
      ensures 0 <= Loc(TileWidth, w[i]) < TileCells
      ensures i < |t.route| ==> Loc(TileWidth, w[i]) != 20
    {
      if i < |t.route| {
        SevenStepCells(t, i);
        LocInRange(TileWidth, TileHeight, w[i]);
      }
    }
  }

  /** Every cell of the listed track has an index on the tile's stamp, and
      only its last cell has the index of cell (0,2). */
  lemma StrayTrackFits()
    ensures TrackFits(TileWidth, TileCells, StrayTrack())
    ensures forall i :: 0 <= i < |StrayTrack().route| ==>
      Loc(TileWidth, TrackWalk(StrayTrack())[i]) != 20
  {
    StrayRouteLength();
    StrayPrefixOnTile();
    StrayNoWest();
    StrayStartColumn();
    StrayReplayEnd();
    SevenStepFits(StrayTrack());
  }

  /** A track whose last step turns straight back against its exit
      direction ends on the empty twist. */
  lemma FinishUTurn(t: Track)
    requires t.route != []
    requires ExitDir(t.finish) == Rev(t.route[|t.route| - 1])
    ensures Twists(t)[|t.route|] == ZZ
  {
    TwistAt(t, |t.route|);
    assert Incoming(t)[|t.route|] == t.route[|t.route| - 1];
  }

  lemma StrayExitsBack()
    ensures ExitDir(StrayTrack().finish) == Rev(StrayTrack().route[|StrayTrack().route| - 1])
  {
  }

  /** The listed track's last step is east and its exit direction west, so
      its finish cell gets the empty twist. */
  lemma StrayFinishEmpty()
    ensures Twists(StrayTrack())[|StrayTrack().route|] == ZZ
  {
    StrayExitsBack();
    FinishUTurn(StrayTrack());
  }

  /** Cells (10,1) and (0,2) share index 20 on a 10-wide stamp. */
  lemma EastOverflowAliases()
    ensures Loc(TileWidth, Coord(10, 1)) == Loc(TileWidth, Coord(0, 2)) == 20
  {
  }

  /** The track as listed ends one cell past the east edge, at (10,1). That
      cell's index is 20, the index of cell (0,2), so the stamp write does
      not fail: it lands on the west edge one row down, and the twist it
      writes there is the empty one. With StrayTrackFits and
      Tile5HeadAvoids20 these are the hypotheses of AppendInvisible for the
      game's tile 5. */
  lemma StrayTrackAliases()
    ensures TrackFits(TileWidth, TileCells, StrayTrack())
    ensures TrackWalk(StrayTrack())[|StrayTrack().route|] == Coord(10, 1)
    ensures Loc(TileWidth, Coord(10, 1)) == Loc(TileWidth, Coord(0, 2))
    ensures Twists(StrayTrack())[|StrayTrack().route|] == ZZ
  {
    StrayTrackFits();
    StrayFinishCell();
    StrayFinishEmpty();
    EastOverflowAliases();
  }

  /** Drawing a track whose finish cell, alone among its cells, has index 20
      and gets the empty twist leaves a blank cell 20 blank. */
  lemma UTurnFinishInvisible(s: Stamp, t: Track)
    requires s.width == TileWidth && |s.pix| == TileCells
    requires s.pix[20] == Blank
    requires TrackFits(TileWidth, TileCells, t)
    requires forall i :: 0 <= i < |t.route| ==> Loc(TileWidth, TrackWalk(t)[i]) != 20
    requires TrackWalk(t)[|t.route|] == Coord(10, 1)
    requires Twists(t)[|t.route|] == ZZ
    ensures AddTrackStamp(s, t).Some?
    ensures AddTrackStamp(s, t).value.pix[20] == Blank
  {
    AddTrackStampFinishFresh(s, t);
  }

  /** Tracks that all fit, the last possibly unsound, draw without error. */
  lemma AppendFits(h: seq<Track>, c: Track, code: nat)
    requires forall k :: 0 <= k < |h| ==> Sound(h[k])
    requires TrackFits(TileWidth, TileCells, c)
    ensures MakeTileStamp(TileMap(h + [c]), code).Some?
  {
    var ts := h + [c];
    forall k | 0 <= k < |ts|
      ensures TrackFits(TileWidth, TileCells, ts[k])
    {
      if k < |h| {
        assert ts[k] == h[k];
        StaysInTileFits(h[k]);
      } else {
        assert ts[k] == c;
      }
    }
  }

  /** Tile 5 as the game lists it still draws without error. */
  lemma SourceTile5Stamps(code: nat)
    ensures MakeTileStamp(SourceTile5(), code).Some?
  {
    Tile5HeadLength();
    Tile5HeadSound();
    StrayTrackFits();
    AppendFits(Tile5Head(), StrayTrack(), code);
  }

  /** The only tile cell with index 20 is (0,2). */
  lemma OnlyCell20(pt: Coord)
    requires InTile(pt) && (pt.y != 2 || pt.x != 0)
    ensures Loc(TileWidth, pt) != 20
  {
  }

  /** A cell after the first of a route that starts with an east step and
      never steps west lies east of the start. */
  lemma EastOfStart(pt: Coord, route: seq<Step>, i: nat)
    requires route != [] && route[0] == E
    requires forall k :: 0 <= k < |route| ==> route[k] != W
    requires 0 < i <= |route|
    ensures Walk(pt, route)[i].x > pt.x
  {
    var tail := route[1..];
    assert forall k :: 0 <= k < |tail| ==> tail[k] == route[k + 1];
    WalkTail(pt, route, i);
    NoWestKeepsColumn(Plus(pt, E), tail, i - 1);
  }

  /** One cell of a walk that stays on the tile, starts off row 2, steps
      east first and never steps west: it is the start, on another row, or
      lies east of column 0. */
  lemma EastFirstCell(pt: Coord, route: seq<Step>, i: nat)
    requires InTileAlong(pt, route)
    requires route != [] && route[0] == E
    requires forall k :: 0 <= k < |route| ==> route[k] != W
    requires pt.y != 2
    requires i <= |route|
    ensures Loc(TileWidth, Walk(pt, route)[i]) != 20
  {
    var c := Walk(pt, route)[i];
    InTileAlongWalk(pt, route, i);
    if i > 0 {
      EastOfStart(pt, route, i);
    }
    OnlyCell20(c);
  }

  /** The shape EastFirstCell asks of a track's walk. */
  predicate EastFirst(t: Track) {
    && t.route != [] && t.route[0] == E
    && (forall k :: 0 <= k < |t.route| ==> t.route[k] != W)
    && EntranceLoc(t.start).y != 2
  }

  /** Tracks of that shape that stay on the tile never visit index 20. */
  lemma EastFirstUntouched(h: seq<Track>)
    requires forall k :: 0 <= k < |h| ==> StaysInTile(h[k]) && EastFirst(h[k])
    ensures Untouched(TileWidth, h, 20)
  {
    forall k, i | 0 <= k < |h| && 0 <= i <= |h[k].route|
      ensures Loc(TileWidth, TrackWalk(h[k])[i]) != 20
    {
      EastFirstCell(EntranceLoc(h[k].start), h[k].route, i);
    }
  }

  lemma Tile5HeadEastFirst()
    ensures forall k :: 0 <= k < |Tile5Head()| ==> EastFirst(Tile5Head()[k])
  {
  }

  /** The first three tracks of tile 5 never visit cell (0,2), index 20. */
  lemma Tile5HeadAvoids20()
    ensures forall k :: 0 <= k < 3 ==> Sound(Tile5Head()[k])
    ensures Untouched(TileWidth, Tile5Head(), 20)
  {
    Tile5HeadLength();
    Tile5HeadSound();
    Tile5HeadEastFirst();
    EastFirstUntouched(Tile5Head());
  }

  /** Drawing one more track draws it over what the others drew. */
  lemma StampTracksAppend(s: Stamp, h: seq<Track>, c: Track)
    requires StampTracks(s, h).Some?
    ensures StampTracks(s, h + [c]) == AddTrackStamp(StampTracks(s, h).value, c)
  {
    var ts := h + [c];
    assert ts[..|ts| - 1] == h;
    assert ts[|ts| - 1] == c;
  }

  /** Drawing, after tracks that never visit index 20, a track whose only
      write there is an empty U-turn finish keeps a blank cell 20 blank. */
  lemma AppendStampsBlank(s: Stamp, h: seq<Track>, c: Track)
    requires s.width == TileWidth && |s.pix| == TileCells
    requires s.pix[20] == Blank
    requires TracksFit(TileWidth, TileCells, h)
    requires Untouched(TileWidth, h, 20)
    requires TrackFits(TileWidth, TileCells, c)
    requires forall i :: 0 <= i < |c.route| ==> Loc(TileWidth, TrackWalk(c)[i]) != 20
    requires TrackWalk(c)[|c.route|] == Coord(10, 1)
    requires Twists(c)[|c.route|] == ZZ
    ensures StampTracks(s, h + [c]).Some?
    ensures StampTracks(s, h + [c]).value.pix[20] == Blank
  {
    var p := StampTracks(s, h).value;
    StampTracksAppend(s, h, c);
    StampTracksFrame(s, h, 20);
    UTurnFinishInvisible(p, c);
  }

  /** Appending a track whose only write to index 20 is an empty U-turn
      finish, after tracks that never visit index 20, leaves that cell of the
      tile blank. */
  lemma AppendInvisible(h: seq<Track>, c: Track, code: nat)
    requires forall k :: 0 <= k < |h| ==> Sound(h[k])
    requires Untouched(TileWidth, h, 20)
    requires TrackFits(TileWidth, TileCells, c)
    requires forall i :: 0 <= i < |c.route| ==> Loc(TileWidth, TrackWalk(c)[i]) != 20
    requires TrackWalk(c)[|c.route|] == Coord(10, 1)
    requires Twists(c)[|c.route|] == ZZ
    ensures MakeTileStamp(TileMap(h + [c]), code).Some?
    ensures MakeTileStamp(TileMap(h + [c]), code).value.pix[20] == Blank
  {
    AppendFits(h, c, code);
    var s := BlankOut(NewStamp(TileWidth, TileHeight));
    forall k | 0 <= k < |h|
      ensures TrackFits(TileWidth, TileCells, h[k])
    {
      StaysInTileFits(h[k]);
    }
    AppendStampsBlank(s, h, c);
  }
}
