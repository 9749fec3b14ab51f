/** Tile geometry: travel directions, coordinates and the eight entrances on the
    border of a 10 x 5 tile, plus the twist (glyph category) resolver.

    Coordinates are cells of the tile, x growing east and y growing south, so
    (0,0) is the north-west corner.
 */
module Geometry {

  /** The four travel directions, in the order the twist table relies on. */
  datatype Step = E | N | S | W

  /** Where a track may cross the tile border; Z0 is the placeholder used by
      the empty tile. */
  datatype Entrance = Z0 | E1 | E2 | N1 | N2 | S1 | S2 | W1 | W2

  datatype Coord = Coord(x: int, y: int)
  datatype Delta = Delta(dx: int, dy: int)

  const TileWidth: int := 10
  const TileHeight: int := 5

  /** A cell of the 10 x 5 tile. */
  predicate InTile(pt: Coord) {
    0 <= pt.x < TileWidth && 0 <= pt.y < TileHeight
  }

  // ---------------------------------------------------------------------
  // Coordinate and delta arithmetic

  function Add(pt: Coord, v: Delta): Coord {
    Coord(pt.x + v.dx, pt.y + v.dy)
  }

  function Sub(pt: Coord, v: Delta): Coord {
    Coord(pt.x - v.dx, pt.y - v.dy)
  }

  function Neg(v: Delta): Delta {
    Delta(-v.dx, -v.dy)
  }

  /** The difference of two coordinates. Note the argument order: the delta
      leads from `a` to `b`, so it is `b - a` in the usual reading. */
  function Diff(a: Coord, b: Coord): (r: Delta)
    ensures Add(a, r) == b
    ensures Sub(b, r) == a
  {
    Delta(b.x - a.x, b.y - a.y)
  }

  lemma SubUndoesAdd(pt: Coord, v: Delta)
    ensures Sub(Add(pt, v), v) == pt
    ensures Add(Sub(pt, v), v) == pt
    ensures Add(Add(pt, v), Neg(v)) == pt
  {
  }

  // ---------------------------------------------------------------------
  // Directions

  /** The unit delta of one step. */
  function Move(step: Step): Delta {
    match step
    case E => Delta(1, 0)
    case N => Delta(0, -1)
    case S => Delta(0, 1)
    case W => Delta(-1, 0)
  }

  /** The opposite direction; never the direction itself. */
  function Rev(step: Step): (r: Step)
    ensures r != step
  {
    match step
    case E => W
    case N => S
    case S => N
    case W => E
  }

  /** Every step moves exactly one cell along one axis. */
  lemma MoveIsUnit(step: Step)
    ensures var v := Move(step); (v.dx == 0) != (v.dy == 0)
    ensures var v := Move(step); -1 <= v.dx <= 1 && -1 <= v.dy <= 1
  {
  }

  /** The reversed direction moves by the negated delta. */
  lemma RevNegatesMove(step: Step)
    ensures Move(Rev(step)) == Neg(Move(step))
  {
  }

  lemma MoveInjective(a: Step, b: Step)
    ensures Move(a) == Move(b) ==> a == b
  {
  }

  lemma RevInvolutive(step: Step)
    ensures Rev(Rev(step)) == step
  {
  }

  function Plus(pt: Coord, step: Step): Coord {
    Add(pt, Move(step))
  }

  function Minus(pt: Coord, step: Step): Coord {
    Sub(pt, Move(step))
  }

  /** Stepping and stepping back, either by subtraction or by the reversed
      direction, returns to the starting cell. */
  lemma StepRoundTrip(pt: Coord, step: Step)
    ensures Minus(Plus(pt, step), step) == pt
    ensures Plus(Plus(pt, step), Rev(step)) == pt
    ensures Plus(pt, Rev(step)) == Minus(pt, step)
  {
  }

  // ---------------------------------------------------------------------
  // Entrances

  /** The cell an entrance sits in: two per edge, one cell in from the
      corners on the short edges and at columns 3 and 6 on the long ones. */
  function EntranceLoc(e: Entrance): (r: Coord)
    ensures InTile(r)
    ensures e == Z0 ==> r == Coord(0, 0)
    ensures e == E1 || e == E2 ==> r.x == TileWidth - 1
    ensures e == W1 || e == W2 ==> r.x == 0
    ensures e == N1 || e == N2 ==> r.y == 0
    ensures e == S1 || e == S2 ==> r.y == TileHeight - 1
  {
    // columns: west edge 0, east edge 9, entrances 3 and 6;
    // rows: north edge 0, south edge 4, entrances 1 and 3
    match e
    case Z0 => Coord(0, 0)
    case E1 => Coord(9, 1)
    case E2 => Coord(9, 3)
    case N1 => Coord(3, 0)
    case N2 => Coord(6, 0)
    case S1 => Coord(3, 4)
    case S2 => Coord(6, 4)
    case W1 => Coord(0, 1)
    case W2 => Coord(0, 3)
  }

  /** No two entrances share a cell. */
  lemma EntranceLocInjective(a: Entrance, b: Entrance)
    ensures EntranceLoc(a) == EntranceLoc(b) ==> a == b
  {
  }

  /** The direction of travel when arriving through an entrance: it points
      into the tile, and one step against it leaves the tile. */
  function EntranceDir(e: Entrance): (r: Step)
    ensures e != Z0 ==> InTile(Plus(EntranceLoc(e), r))
    ensures e != Z0 ==> !InTile(Minus(EntranceLoc(e), r))
  {
    match e
    case Z0 => E
    case E1 | E2 => W
    case N1 | N2 => S
    case S1 | S2 => N
    case W1 | W2 => E
  }

  /** The direction of travel when a track leaves through an entrance: one
      step along it leaves the tile. */
  function ExitDir(e: Entrance): (r: Step)
    ensures e != Z0 ==> !InTile(Plus(EntranceLoc(e), r))
    ensures Rev(r) == EntranceDir(e)
  {
    Rev(EntranceDir(e))
  }

  // ---------------------------------------------------------------------
  // Twists

  /** How a track passes through one cell, named by the cell's two exits;
      ZZ is an empty cell and XX two tracks crossing. */
  datatype Twist = ZZ | EN | ES | EW | NS | NW | SW | XX

  /** The sides of the cell a twist connects: an independent reading of the
      twist names. */
  function Exits(t: Twist): set<Step> {
    match t
    case ZZ => {}
    case EN => {E, N}
    case ES => {E, S}
    case EW => {E, W}
    case NS => {N, S}
    case NW => {N, W}
    case SW => {S, W}
    case XX => {E, N, S, W}
  }

  lemma ExitsInjective(a: Twist, b: Twist)
    ensures Exits(a) == Exits(b) ==> a == b
  {
  }

  /** The position of a direction in its declaration order. */
  function Ord(step: Step): (r: nat)
    ensures r < 4
  {
    match step
    case E => 0
    case N => 1
    case S => 2
    case W => 3
  }

  /** The twist table, indexed by the side a track came in through times four
      plus the side it leaves through. */
  const Twister: seq<Twist> := [
    ZZ, EN, ES, EW,
    EN, ZZ, NS, NW,
    ES, NS, ZZ, SW,
    EW, NW, SW, ZZ
  ]

  /** The twist of a cell entered travelling `din` and left travelling
      `dout`. The cell is entered through its `Rev(din)` side, so its exits
      are that side and `dout`; a U-turn has a single exit and is empty. */
  function MakeTwist(din: Step, dout: Step): (r: Twist)
    ensures r != XX
    ensures r == ZZ <==> Rev(din) == dout
    ensures Rev(din) != dout ==> Exits(r) == {Rev(din), dout}
  {
    Twister[Ord(Rev(din)) * 4 + Ord(dout)]
  }

  /** A track drawn backwards, entering travelling `Rev(dout)` and leaving
      travelling `Rev(din)`, passes through the cell with the same twist. */
  lemma MakeTwistReversible(din: Step, dout: Step)
    ensures MakeTwist(din, dout) == MakeTwist(Rev(dout), Rev(din))
  {
    RevInvolutive(din);
    RevInvolutive(dout);
    var a, b := MakeTwist(din, dout), MakeTwist(Rev(dout), Rev(din));
    if Rev(din) != dout {
      assert Exits(a) == Exits(b);
      ExitsInjective(a, b);
    }
  }

  /** Going straight on gives the straight glyph of the axis travelled. */
  lemma MakeTwistStraight(d: Step)
    ensures MakeTwist(d, d) == (if d == E || d == W then EW else NS)
  {
  }

  /** Turning back gives the empty twist. */
  lemma MakeTwistUTurn(d: Step)
    ensures MakeTwist(d, Rev(d)) == ZZ
  {
    RevInvolutive(d);
  }
}
