/** Copying a stamp onto the terminal screen, plainly or highlighted.

    The screen belongs to the terminal UI library, which is not part of
    this model: here it is a grid of pixels stored row by row, each with a
    glyph and an inverted-video flag.
 */
module Screens {
  import opened Common
  import opened Geometry
  import opened Stamps

  datatype Pixel = Pixel(character: string, inverted: bool)

  /** `rows[y][x]` is the pixel in column x of row y. */
  datatype Screen = Screen(dimx: int, dimy: int, rows: seq<seq<Pixel>>)

  predicate ValidScreen(sc: Screen) {
    && 0 <= sc.dimx && 0 <= sc.dimy && |sc.rows| == sc.dimy
    && forall y :: 0 <= y < |sc.rows| ==> |sc.rows[y]| == sc.dimx
  }

  /** Screen cell (x, y) exists; writes anywhere else are dropped. */
  predicate OnScreen(sc: Screen, x: int, y: int) {
    0 <= x < sc.dimx && 0 <= y < sc.dimy
  }

  /** Screen cell (x, y) is covered by the stamp shifted by `offset`. */
  predicate Covered(s: Stamp, offset: Delta, x: int, y: int) {
    0 <= x - offset.dx < s.width && 0 <= y - offset.dy < s.height
  }

  /** The stamp glyph that lands on covered screen cell (x, y). */
  function GlyphAt(s: Stamp, offset: Delta, x: int, y: int): (r: string)
    requires Valid(s) && Covered(s, offset, x, y)
    ensures At(s, Coord(x - offset.dx, y - offset.dy)) == Some(r)
  {
    var pt := Coord(x - offset.dx, y - offset.dy);
    LocInRange(s.width, s.height, pt);
    s.pix[Loc(s.width, pt)]
  }

  /** The stamp cell (sx, sy), in row-major order, is drawn before the
      cursor (cx, cy). */
  predicate Before(sx: int, sy: int, cx: int, cy: int) {
    sy < cy || (sy == cy && sx < cx)
  }

  /** What screen cell (x, y) holds once the stamp cells before the cursor
      have been copied: the stamp's glyph, with the inverted flag set when
      `invert` and kept otherwise, or the original pixel. */
  function Progress(s: Stamp, sc: Screen, offset: Delta, invert: bool,
                    cx: int, cy: int, x: int, y: int): Pixel
    requires Valid(s) && ValidScreen(sc)
    requires 0 <= y < sc.dimy && 0 <= x < sc.dimx
  {
    var p := sc.rows[y][x];
    if Covered(s, offset, x, y) && Before(x - offset.dx, y - offset.dy, cx, cy)
    then Pixel(GlyphAt(s, offset, x, y), invert || p.inverted)
    else p
  }

  /** Copies the stamp cell by cell, row by row; with `invert` every copied
      pixel is also highlighted. */
  method Blit(s: Stamp, sc: Screen, offset: Delta, invert: bool) returns (r: Screen)
    requires Valid(s) && ValidScreen(sc)
    ensures ValidScreen(r) && r.dimx == sc.dimx && r.dimy == sc.dimy
    ensures forall y, x :: 0 <= y < r.dimy && 0 <= x < r.dimx ==>
      r.rows[y][x] == Progress(s, sc, offset, invert, 0, s.height, x, y)
  {
    r := sc;
    var cy := 0;
    while cy < s.height
      invariant 0 <= cy <= s.height
      invariant ValidScreen(r) && r.dimx == sc.dimx && r.dimy == sc.dimy
      invariant forall y, x :: 0 <= y < r.dimy && 0 <= x < r.dimx ==>
        r.rows[y][x] == Progress(s, sc, offset, invert, 0, cy, x, y)
    {
      var cx := 0;
      while cx < s.width
        invariant 0 <= cx <= s.width
        invariant ValidScreen(r) && r.dimx == sc.dimx && r.dimy == sc.dimy
        invariant forall y, x :: 0 <= y < r.dimy && 0 <= x < r.dimx ==>
          r.rows[y][x] == Progress(s, sc, offset, invert, cx, cy, x, y)
      {
        r := CopyCell(s, sc, r, offset, invert, cx, cy);
        cx := cx + 1;
      }
      NextRow(s, sc, r, offset, invert, cy);
      cy := cy + 1;
    }
  }

  /** Copies stamp cell (cx, cy), the one at the cursor, when it lands on
      the screen, and moves the cursor one cell on. */
  method CopyCell(s: Stamp, sc: Screen, r0: Screen, offset: Delta, invert: bool,
                  cx: int, cy: int) returns (r: Screen)
    requires Valid(s) && ValidScreen(sc)
    requires 0 <= cx < s.width && 0 <= cy < s.height
    requires ValidScreen(r0) && r0.dimx == sc.dimx && r0.dimy == sc.dimy
    requires forall y, x :: 0 <= y < r0.dimy && 0 <= x < r0.dimx ==>
      r0.rows[y][x] == Progress(s, sc, offset, invert, cx, cy, x, y)
    ensures ValidScreen(r) && r.dimx == sc.dimx && r.dimy == sc.dimy
    ensures forall y, x :: 0 <= y < r.dimy && 0 <= x < r.dimx ==>
      r.rows[y][x] == Progress(s, sc, offset, invert, cx + 1, cy, x, y)
  {
    var X, Y := cx + offset.dx, cy + offset.dy;
    if OnScreen(sc, X, Y) {
      var p := r0.rows[Y][X];
      assert p == sc.rows[Y][X];
      var q := Pixel(GlyphAt(s, offset, X, Y), invert || p.inverted);
      r := r0.(rows := r0.rows[Y := r0.rows[Y][X := q]]);
    } else {
      r := r0;
    }
  }

  /** Finishing a row moves the cursor to the start of the next one. */
  lemma NextRow(s: Stamp, sc: Screen, r: Screen, offset: Delta, invert: bool, cy: int)
    requires Valid(s) && ValidScreen(sc) && ValidScreen(r)
    requires r.dimx == sc.dimx && r.dimy == sc.dimy
    requires forall y, x :: 0 <= y < r.dimy && 0 <= x < r.dimx ==>
      r.rows[y][x] == Progress(s, sc, offset, invert, s.width, cy, x, y)
    ensures forall y, x :: 0 <= y < r.dimy && 0 <= x < r.dimx ==>
      r.rows[y][x] == Progress(s, sc, offset, invert, 0, cy + 1, x, y)
  {
  }

  /** Copies the stamp onto the screen at `offset`: each covered pixel takes
      the stamp's glyph and keeps its inverted flag; every other pixel is
      left alone, and the part of the stamp off the screen is clipped. */
  method Render(s: Stamp, sc: Screen, offset: Delta) returns (r: Screen)
    requires Valid(s) && ValidScreen(sc)
    ensures ValidScreen(r) && r.dimx == sc.dimx && r.dimy == sc.dimy
    ensures forall y, x :: 0 <= y < r.dimy && 0 <= x < r.dimx && Covered(s, offset, x, y) ==>
      At(s, Coord(x - offset.dx, y - offset.dy)) == Some(r.rows[y][x].character)
      && r.rows[y][x].inverted == sc.rows[y][x].inverted
    ensures forall y, x :: 0 <= y < r.dimy && 0 <= x < r.dimx && !Covered(s, offset, x, y) ==>
      r.rows[y][x] == sc.rows[y][x]
  {
    r := Blit(s, sc, offset, false);
  }

  /** As Render, but every covered pixel is also switched to inverted video. */
  method RenderInverted(s: Stamp, sc: Screen, offset: Delta) returns (r: Screen)
    requires Valid(s) && ValidScreen(sc)
    ensures ValidScreen(r) && r.dimx == sc.dimx && r.dimy == sc.dimy
    ensures forall y, x :: 0 <= y < r.dimy && 0 <= x < r.dimx && Covered(s, offset, x, y) ==>
      At(s, Coord(x - offset.dx, y - offset.dy)) == Some(r.rows[y][x].character)
      && r.rows[y][x].inverted
    ensures forall y, x :: 0 <= y < r.dimy && 0 <= x < r.dimx && !Covered(s, offset, x, y) ==>
      r.rows[y][x] == sc.rows[y][x]
  {
    r := Blit(s, sc, offset, true);
  }
}
