/** The tile model: a tile is four tracks, each running from one entrance to
    another along a route of unit steps, and a tile book is the list of tiles
    the game deals from (index 0 is the empty placeholder tile).
 */
module Tiles {
  import opened Geometry

  /** One path across a tile. `route` holds one step per cell boundary
      crossed, so it is one shorter than the number of cells visited. */
  datatype Track = Track(start: Entrance, finish: Entrance, route: seq<Step>)

  datatype TileMap = TileMap(tracks: seq<Track>)

  type TileBook = seq<TileMap>

  // ---------------------------------------------------------------------
  // Replaying a route

  /** Where a route starting at `pt` ends. */
  function Replay(pt: Coord, route: seq<Step>): Coord
    decreases |route|
  {
    if route == [] then pt else Replay(Plus(pt, route[0]), route[1..])
  }

  /** The net displacement of a route, counted step kind by step kind. */
  function Net(route: seq<Step>): Delta {
    var m := multiset(route);
    Delta(m[E] as int - m[W] as int, m[S] as int - m[N] as int)
  }

  /** Replaying only depends on how many steps of each kind the route has. */
  lemma {:induction false} ReplayIsNet(pt: Coord, route: seq<Step>)
    ensures Replay(pt, route) == Add(pt, Net(route))
    decreases |route|
  {
    if route != [] {
      ReplayIsNet(Plus(pt, route[0]), route[1..]);
      assert route == [route[0]] + route[1..];
      assert multiset(route) == multiset([route[0]]) + multiset(route[1..]);
    }
  }

  lemma {:induction false} ReplayAppend(pt: Coord, a: seq<Step>, b: seq<Step>)
    ensures Replay(pt, a + b) == Replay(Replay(pt, a), b)
    decreases |a|
  {
    if a == [] {
      assert a + b == b;
    } else {
      assert (a + b)[0] == a[0];
      assert (a + b)[1..] == a[1..] + b;
      ReplayAppend(Plus(pt, a[0]), a[1..], b);
    }
  }

  /** The cells visited from `pt` along `route`, both ends included. */
  function Walk(pt: Coord, route: seq<Step>): (r: seq<Coord>)
    ensures |r| == |route| + 1
    ensures r[0] == pt
    ensures forall i {:trigger route[i]} :: 0 <= i < |route| ==> r[i + 1] == Plus(r[i], route[i])
    decreases |route|
  {
    if route == [] then [pt] else [pt] + Walk(Plus(pt, route[0]), route[1..])
  }

  /** The i-th cell of a walk is where the first i steps lead. */
  lemma {:induction false} WalkIsReplay(pt: Coord, route: seq<Step>, i: nat)
    requires i <= |route|
    ensures Walk(pt, route)[i] == Replay(pt, route[..i])
    decreases i
  {
    if i > 0 {
      WalkIsReplay(pt, route, i - 1);
      assert route[..i] == route[..i - 1] + [route[i - 1]];
      ReplayAppend(pt, route[..i - 1], [route[i - 1]]);
    }
  }

  lemma WalkEndsAtReplay(pt: Coord, route: seq<Step>)
    ensures Walk(pt, route)[|route|] == Replay(pt, route)
  {
    WalkIsReplay(pt, route, |route|);
    assert route[..|route|] == route;
  }

  // ---------------------------------------------------------------------
  // Running a route backwards

  /** The route from the finish back to the start: the steps in reverse
      order, each one reversed. */
  function Backward(route: seq<Step>): (r: seq<Step>)
    ensures |r| == |route|
    ensures forall i :: 0 <= i < |route| ==> r[i] == Rev(route[|route| - 1 - i])
  {
    seq(|route|, i requires 0 <= i < |route| => Rev(route[|route| - 1 - i]))
  }

  /** The backward route of a route is the backward route of its tail
      followed by the reversed first step. */
  lemma BackwardCons(route: seq<Step>)
    requires route != []
    ensures Backward(route) == Backward(route[1..]) + [Rev(route[0])]
  {
    var n := |route|;
    var b, t := Backward(route), Backward(route[1..]) + [Rev(route[0])];
    forall k | 0 <= k < n
      ensures b[k] == t[k]
    {
      if k < n - 1 {
        assert route[1..][n - 2 - k] == route[n - 1 - k];
      }
    }
  }

  /** Following a route and then its backward route returns to the start. */
  lemma {:induction false} ReplayBackward(pt: Coord, route: seq<Step>)
    ensures Replay(Replay(pt, route), Backward(route)) == pt
    decreases |route|
  {
    if route != [] {
      var h := route[0];
      var q := Replay(Plus(pt, h), route[1..]);
      ReplayBackward(Plus(pt, h), route[1..]);
      BackwardCons(route);
      ReplayAppend(q, Backward(route[1..]), [Rev(h)]);
      StepRoundTrip(pt, h);
    }
  }

  lemma BackwardOfSuffix(route: seq<Step>, i: nat)
    requires i <= |route|
    ensures Backward(route)[..i] == Backward(route[|route| - i..])
  {
    var n := |route|;
    var b, suffix := Backward(route), route[n - i..];
    var bs := Backward(suffix);
    forall k | 0 <= k < i
      ensures b[k] == bs[k]
    {
      assert suffix[i - 1 - k] == route[n - 1 - k];
    }
    assert b[..i] == bs;
  }

  // ---------------------------------------------------------------------
  // Tracks

  /** The cells a track visits, from its start entrance onwards. */
  function TrackWalk(t: Track): seq<Coord> {
    Walk(EntranceLoc(t.start), t.route)
  }

  /** The track's route arrives at its finish entrance. */
  predicate Reaches(t: Track) {
    Replay(EntranceLoc(t.start), t.route) == EntranceLoc(t.finish)
  }

  /** Every cell from `pt` along `route` is on the tile. */
  predicate InTileAlong(pt: Coord, route: seq<Step>)
    decreases |route|
  {
    InTile(pt) && (route == [] || InTileAlong(Plus(pt, route[0]), route[1..]))
  }

  predicate StaysInTile(t: Track) {
    InTileAlong(EntranceLoc(t.start), t.route)
  }

  /** The walk after the first step is the rest of the walk. */
  lemma WalkTail(pt: Coord, route: seq<Step>, i: nat)
    requires 0 < i <= |route|
    ensures Walk(pt, route)[i] == Walk(Plus(pt, route[0]), route[1..])[i - 1]
  {
    var w' := Walk(Plus(pt, route[0]), route[1..]);
    assert Walk(pt, route) == [pt] + w';
  }

  /** A route that stays on the tile step by step keeps every cell of its
      walk on the tile. */
  lemma {:induction false} InTileAlongWalk(pt: Coord, route: seq<Step>, i: nat)
    requires InTileAlong(pt, route)
    requires i <= |route|
    ensures InTile(Walk(pt, route)[i])
    decreases i
  {
    if i > 0 {
      WalkTail(pt, route, i);
      InTileAlongWalk(Plus(pt, route[0]), route[1..], i - 1);
    }
  }

  /** What the tile drawings assume of every track. */
  predicate Sound(t: Track) {
    Reaches(t) && StaysInTile(t)
  }

  /** The direction of travel into each visited cell: the entering direction
      of the start entrance, then the route's steps. */
  function Incoming(t: Track): seq<Step> {
    [EntranceDir(t.start)] + t.route
  }

  /** The direction of travel out of each visited cell: the route's steps,
      then the exit direction of the finish entrance. */
  function Outgoing(t: Track): seq<Step> {
    t.route + [ExitDir(t.finish)]
  }

  /** The twist drawn in each visited cell, in walk order. */
  function Twists(t: Track): (r: seq<Twist>)
    ensures |r| == |t.route| + 1 == |TrackWalk(t)|
    ensures forall i :: 0 <= i < |r| ==> r[i] != XX
  {
    var din, dout := Incoming(t), Outgoing(t);
    seq(|t.route| + 1, i requires 0 <= i <= |t.route| => MakeTwist(din[i], dout[i]))
  }

  /** In every cell the route passes through without turning back, the
      twist's two exits are the side it came in through and the side it
      leaves by, and they point at the previous and the next cell of the
      walk. */
  lemma TwistsConnectWalk(t: Track, i: nat)
    requires 0 < i < |t.route|
    requires t.route[i] != Rev(t.route[i - 1])
    ensures Exits(Twists(t)[i]) == {Rev(t.route[i - 1]), t.route[i]}
    ensures Plus(TrackWalk(t)[i], Rev(t.route[i - 1])) == TrackWalk(t)[i - 1]
    ensures Plus(TrackWalk(t)[i], t.route[i]) == TrackWalk(t)[i + 1]
  {
    var w := TrackWalk(t);
    var a, b := t.route[i - 1], t.route[i];
    assert Incoming(t)[i] == a;
    assert Outgoing(t)[i] == b;
    assert w[i] == Plus(w[i - 1], a);
    StepRoundTrip(w[i - 1], a);
  }

  /** The same track, traversed from its finish to its start. */
  function Reverse(t: Track): Track {
    Track(t.finish, t.start, Backward(t.route))
  }

  lemma ReverseReaches(t: Track)
    requires Reaches(t)
    ensures Reaches(Reverse(t))
  {
    ReplayBackward(EntranceLoc(t.start), t.route);
  }

  /** Replaying a route in two parts ends where replaying it whole does. */
  lemma SplitReplay(pt: Coord, route: seq<Step>, j: nat)
    requires j <= |route|
    ensures Replay(pt, route) == Replay(Replay(pt, route[..j]), route[j..])
  {
    assert route == route[..j] + route[j..];
    ReplayAppend(pt, route[..j], route[j..]);
  }

  /** A track that reaches its finish, reversed, visits the same cells in
      the opposite order. */
  lemma ReverseWalk(t: Track, i: nat)
    requires Reaches(t)
    requires i <= |t.route|
    ensures TrackWalk(Reverse(t))[i] == TrackWalk(t)[|t.route| - i]
  {
    var n, route, start := |t.route|, t.route, EntranceLoc(t.start);
    var j := n - i;
    SplitReplay(start, route, j);
    ReplayBackward(Replay(start, route[..j]), route[j..]);
    WalkIsReplay(EntranceLoc(t.finish), Backward(route), i);
    BackwardOfSuffix(route, i);
    WalkIsReplay(start, route, j);
  }

  lemma TwistAt(t: Track, i: nat)
    requires i <= |t.route|
    ensures Twists(t)[i] == MakeTwist(Incoming(t)[i], Outgoing(t)[i])
  {
  }

  /** Reversing a track reverses the directions it travels: the reverse
      leaves each cell against the way the track entered it ... */
  lemma ReverseOutgoing(t: Track, i: nat)
    requires i <= |t.route|
    ensures Outgoing(Reverse(t))[i] == Rev(Incoming(t)[|t.route| - i])
  {
    var n := |t.route|;
    if i == n {
      assert Outgoing(Reverse(t))[i] == ExitDir(t.start);
      assert Incoming(t)[0] == EntranceDir(t.start);
    } else {
      assert Outgoing(Reverse(t))[i] == Backward(t.route)[i];
      assert Incoming(t)[n - i] == t.route[n - i - 1];
    }
  }

  lemma ReverseIncomingFirst(t: Track)
    ensures Incoming(Reverse(t))[0] == Rev(Outgoing(t)[|t.route|])
  {
    assert Outgoing(t)[|t.route|] == ExitDir(t.finish);
    RevInvolutive(EntranceDir(t.finish));
  }

  lemma ReverseIncomingLater(t: Track, i: nat)
    requires 0 < i <= |t.route|
    ensures Incoming(Reverse(t))[i] == Rev(Outgoing(t)[|t.route| - i])
  {
    var n, b := |t.route|, Backward(t.route);
    var din, dout := Incoming(Reverse(t)), Outgoing(t);
    assert din == [EntranceDir(t.finish)] + b;
    assert din[i] == b[i - 1] == Rev(t.route[n - i]);
    assert dout[n - i] == t.route[n - i];
  }

  /** ... and enters each cell against the way the track left it. */
  lemma ReverseIncoming(t: Track, i: nat)
    requires i <= |t.route|
    ensures Incoming(Reverse(t))[i] == Rev(Outgoing(t)[|t.route| - i])
  {
    if i == 0 {
      ReverseIncomingFirst(t);
    } else {
      ReverseIncomingLater(t, i);
    }
  }

  lemma ReverseTwistAt(t: Track, i: nat)
    requires i <= |t.route|
    ensures Twists(Reverse(t))[i] ==
      MakeTwist(Rev(Outgoing(t)[|t.route| - i]), Rev(Incoming(t)[|t.route| - i]))
  {
    ReverseOutgoing(t, i);
    ReverseIncoming(t, i);
    TwistAt(Reverse(t), i);
  }

  /** A track drawn backwards puts the same twist in every cell: the glyphs
      do not depend on which end a track is listed from. */
  lemma ReverseTwists(t: Track, i: nat)
    requires i <= |t.route|
    ensures Twists(Reverse(t))[i] == Twists(t)[|t.route| - i]
  {
    var j := |t.route| - i;
    ReverseTwistAt(t, i);
    TwistAt(t, j);
    MakeTwistReversible(Incoming(t)[j], Outgoing(t)[j]);
  }

  // ---------------------------------------------------------------------
  // Validating a track

  /** A load-time check of a track in plain integer arithmetic: from cell
      (x, y), the steps of `route` from index i on stay on the tile and end
      at (tx, ty). */
  predicate Lands(x: int, y: int, route: seq<Step>, i: nat, tx: int, ty: int)
    decreases |route| - i
  {
    0 <= x < TileWidth && 0 <= y < TileHeight &&
    if i >= |route| then x == tx && y == ty
    else
      var d := route[i];
      Lands(if d == E then x + 1 else if d == W then x - 1 else x,
            if d == S then y + 1 else if d == N then y - 1 else y,
            route, i + 1, tx, ty)
  }

  lemma {:induction false} LandsIff(x: int, y: int, route: seq<Step>, i: nat, tx: int, ty: int)
    requires i <= |route|
    ensures Lands(x, y, route, i, tx, ty) <==>
      Replay(Coord(x, y), route[i..]) == Coord(tx, ty) && InTileAlong(Coord(x, y), route[i..])
    decreases |route| - i
  {
    if i == |route| {
      assert route[i..] == [];
    } else {
      var d := route[i];
      var next := Plus(Coord(x, y), d);
      assert next.x == (if d == E then x + 1 else if d == W then x - 1 else x);
      assert next.y == (if d == S then y + 1 else if d == N then y - 1 else y);
      LandsIff(next.x, next.y, route, i + 1, tx, ty);
      assert route[i..][0] == d;
      assert route[i..][1..] == route[i + 1..];
    }
  }

  /** The validator: it accepts exactly the sound tracks. */
  predicate ValidTrack(t: Track) {
    var from, to := EntranceLoc(t.start), EntranceLoc(t.finish);
    Lands(from.x, from.y, t.route, 0, to.x, to.y)
  }

  lemma ValidTrackIsSound(t: Track)
    ensures ValidTrack(t) <==> Sound(t)
  {
    var from, to := EntranceLoc(t.start), EntranceLoc(t.finish);
    LandsIff(from.x, from.y, t.route, 0, to.x, to.y);
    assert t.route[0..] == t.route;
  }

  // ---------------------------------------------------------------------
  // The tile book

  /** The empty placeholder tile: its routes are empty. */
  function SourceTile0(): TileMap {
    TileMap([
      Track(N1, N2, []),
      Track(E1, E2, []),
      Track(W1, W2, []),
      Track(S1, E2, [])
    ])
  }

  function SourceTile1(): TileMap {
    TileMap([
      Track(N1, S2, [S, E, S, E, E, S, S]),
      Track(N2, E1, [E, E, S, E]),
      Track(W1, W2, [E, S, S, W]),
      Track(S1, E2, [N, E, E, E, E, E, E])
    ])
  }

  function SourceTile2(): TileMap {
    TileMap([
      Track(N1, S1, [S, S, S, S]),
      Track(N2, S2, [S, S, S, S]),
      Track(W1, E1, [E, E, E, E, E, E, E, E, E]),
      Track(W2, E2, [E, E, E, E, E, E, E, E, E])
    ])
  }

  function SourceTile3(): TileMap {
    TileMap([
      Track(N1, W1, [S, W, W, W]),
      Track(N2, S2, [E, S, S, E, S, S, W, W]),
      Track(W2, E2, [S, E, E, E, E, N, E, E, E, E, E]),
      Track(S1, E1, [N, N, E, E, N, E, E, E, E])
    ])
  }

  function SourceTile4(): TileMap {
    TileMap([
      Track(W2, E2, [E, S, E, E, E, E, E, E, E, N, E]),
      Track(W1, E1, [E, N, E, E, E, E, E, E, S, E, E]),
      Track(N1, S2, [S, E, S, E, E, S, S]),
      Track(N2, S1, [S, W, S, S, W, W, S])
    ])
  }

  /** The first three tracks of tile 5, which the game and the tile's
      drawing agree on. */
  function Tile5Head(): seq<Track> {
    [
      Track(W2, N2, [E, E, E, E, N, N, E, E, N]),
      Track(W1, S1, [E, E, E, S, S, S]),
      Track(N1, E2, [E, E, S, S, E, E, E, S, E])
    ]
  }

  lemma Tile5HeadLength() ensures |Tile5Head()| == 3 { }

  /** The fourth track of tile 5 as the game lists it: from s2 to w1. */
  function StrayTrack(): Track {
    Track(S2, W1, [E, N, N, N, E, E, E])
  }

  /** Tile 5 with its fourth track as the game lists it. */
  function SourceTile5(): TileMap {
    TileMap(Tile5Head() + [StrayTrack()])
  }

  /** The six tiles exactly as the game defines them. */
  function SourceBook(): (r: TileBook)
    ensures |r| == 6
    ensures forall i :: 0 <= i < |r| ==> |r[i].tracks| == 4
  {
    [SourceTile0(), SourceTile1(), SourceTile2(), SourceTile3(), SourceTile4(), SourceTile5()]
  }

  /** The fourth track of tile 5 as the tile's drawing shows it: up from s2
      and out through e1. */
  function CorrectedTrack(): Track {
    Track(S2, E1, [E, N, N, N, E, E])
  }

  function CorrectedTile5(): TileMap {
    TileMap(Tile5Head() + [CorrectedTrack()])
  }

  /** The tile book with the fourth track of tile 5 corrected; every other
      track is the game's own. */
  function Book(): (r: TileBook)
    ensures |r| == |SourceBook()|
    ensures forall i :: 0 <= i < |r| ==> |r[i].tracks| == 4
    ensures forall i :: 0 <= i < 5 ==> r[i] == SourceBook()[i]
    ensures r[5].tracks[..3] == SourceBook()[5].tracks[..3]
    ensures r[5].tracks[3] != SourceBook()[5].tracks[3]
  {
    [SourceTile0(), SourceTile1(), SourceTile2(), SourceTile3(), SourceTile4(), CorrectedTile5()]
  }

  /** All four tracks of a tile are sound. */
  predicate SoundTile(m: TileMap) {
    forall k :: 0 <= k < |m.tracks| ==> Sound(m.tracks[k])
  }

  lemma FourValidTracks(m: TileMap)
    requires |m.tracks| == 4
    requires ValidTrack(m.tracks[0]) && ValidTrack(m.tracks[1])
    requires ValidTrack(m.tracks[2]) && ValidTrack(m.tracks[3])
    ensures SoundTile(m)
  {
    forall k | 0 <= k < 4
      ensures Sound(m.tracks[k])
    {
      if k == 0 { ValidTrackIsSound(m.tracks[0]); }
      else if k == 1 { ValidTrackIsSound(m.tracks[1]); }
      else if k == 2 { ValidTrackIsSound(m.tracks[2]); }
      else { ValidTrackIsSound(m.tracks[3]); }
    }
  }

  // The validator run on the game's tracks, two tracks at a time. Each
  // proof lists the walk cell by cell, from the finish back to the start.

  lemma SourceTile1Front()
    ensures ValidTrack(SourceTile1().tracks[0]) && ValidTrack(SourceTile1().tracks[1])
  {
    var r := [S, E, S, E, E, S, S];
    assert Lands(6, 4, r, 7, 6, 4);
    assert Lands(6, 3, r, 6, 6, 4);
    assert Lands(6, 2, r, 5, 6, 4);
    assert Lands(5, 2, r, 4, 6, 4);
    assert Lands(4, 2, r, 3, 6, 4);
    assert Lands(4, 1, r, 2, 6, 4);
    assert Lands(3, 1, r, 1, 6, 4);
    assert Lands(3, 0, r, 0, 6, 4);
    var q := [E, E, S, E];
    assert Lands(9, 1, q, 4, 9, 1);
    assert Lands(8, 1, q, 3, 9, 1);
    assert Lands(8, 0, q, 2, 9, 1);
    assert Lands(7, 0, q, 1, 9, 1);
    assert Lands(6, 0, q, 0, 9, 1);
  }

  lemma SourceTile1Back()
    ensures ValidTrack(SourceTile1().tracks[2]) && ValidTrack(SourceTile1().tracks[3])
  {
    var r := [E, S, S, W];
    assert Lands(0, 3, r, 4, 0, 3);
    assert Lands(1, 3, r, 3, 0, 3);
    assert Lands(1, 2, r, 2, 0, 3);
    assert Lands(1, 1, r, 1, 0, 3);
    assert Lands(0, 1, r, 0, 0, 3);
    var q := [N, E, E, E, E, E, E];
    assert Lands(9, 3, q, 7, 9, 3);
    assert Lands(8, 3, q, 6, 9, 3);
    assert Lands(7, 3, q, 5, 9, 3);
    assert Lands(6, 3, q, 4, 9, 3);
    assert Lands(5, 3, q, 3, 9, 3);
    assert Lands(4, 3, q, 2, 9, 3);
    assert Lands(3, 3, q, 1, 9, 3);
    assert Lands(3, 4, q, 0, 9, 3);
  }

  lemma SourceTile2Front()
    ensures ValidTrack(SourceTile2().tracks[0]) && ValidTrack(SourceTile2().tracks[1])
  {
    var r := [S, S, S, S];
    assert Lands(3, 4, r, 4, 3, 4);
    assert Lands(3, 3, r, 3, 3, 4);
    assert Lands(3, 2, r, 2, 3, 4);
    assert Lands(3, 1, r, 1, 3, 4);
    assert Lands(3, 0, r, 0, 3, 4);
    var q := [S, S, S, S];
    assert Lands(6, 4, q, 4, 6, 4);
    assert Lands(6, 3, q, 3, 6, 4);
    assert Lands(6, 2, q, 2, 6, 4);
    assert Lands(6, 1, q, 1, 6, 4);
    assert Lands(6, 0, q, 0, 6, 4);
  }

  lemma SourceTile2Back()
    ensures ValidTrack(SourceTile2().tracks[2]) && ValidTrack(SourceTile2().tracks[3])
  {
    var r := [E, E, E, E, E, E, E, E, E];
    assert Lands(9, 1, r, 9, 9, 1);
    assert Lands(8, 1, r, 8, 9, 1);
    assert Lands(7, 1, r, 7, 9, 1);
    assert Lands(6, 1, r, 6, 9, 1);
    assert Lands(5, 1, r, 5, 9, 1);
    assert Lands(4, 1, r, 4, 9, 1);
    assert Lands(3, 1, r, 3, 9, 1);
    assert Lands(2, 1, r, 2, 9, 1);
    assert Lands(1, 1, r, 1, 9, 1);
    assert Lands(0, 1, r, 0, 9, 1);
    var q := [E, E, E, E, E, E, E, E, E];
    assert Lands(9, 3, q, 9, 9, 3);
    assert Lands(8, 3, q, 8, 9, 3);
    assert Lands(7, 3, q, 7, 9, 3);
    assert Lands(6, 3, q, 6, 9, 3);
    assert Lands(5, 3, q, 5, 9, 3);
    assert Lands(4, 3, q, 4, 9, 3);
    assert Lands(3, 3, q, 3, 9, 3);
    assert Lands(2, 3, q, 2, 9, 3);
    assert Lands(1, 3, q, 1, 9, 3);
    assert Lands(0, 3, q, 0, 9, 3);
  }

  lemma SourceTile3Front()
    ensures ValidTrack(SourceTile3().tracks[0]) && ValidTrack(SourceTile3().tracks[1])
  {
    var r := [S, W, W, W];
    assert Lands(0, 1, r, 4, 0, 1);
    assert Lands(1, 1, r, 3, 0, 1);
    assert Lands(2, 1, r, 2, 0, 1);
    assert Lands(3, 1, r, 1, 0, 1);
    assert Lands(3, 0, r, 0, 0, 1);
    var q := [E, S, S, E, S, S, W, W];
    assert Lands(6, 4, q, 8, 6, 4);
    assert Lands(7, 4, q, 7, 6, 4);
    assert Lands(8, 4, q, 6, 6, 4);
    assert Lands(8, 3, q, 5, 6, 4);
    assert Lands(8, 2, q, 4, 6, 4);
    assert Lands(7, 2, q, 3, 6, 4);
    assert Lands(7, 1, q, 2, 6, 4);
    assert Lands(7, 0, q, 1, 6, 4);
    assert Lands(6, 0, q, 0, 6, 4);
  }

  lemma SourceTile3Back()
    ensures ValidTrack(SourceTile3().tracks[2]) && ValidTrack(SourceTile3().tracks[3])
  {
    var r := [S, E, E, E, E, N, E, E, E, E, E];
    assert Lands(9, 3, r, 11, 9, 3);
    assert Lands(8, 3, r, 10, 9, 3);
    assert Lands(7, 3, r, 9, 9, 3);
    assert Lands(6, 3, r, 8, 9, 3);
    assert Lands(5, 3, r, 7, 9, 3);
    assert Lands(4, 3, r, 6, 9, 3);
    assert Lands(4, 4, r, 5, 9, 3);
    assert Lands(3, 4, r, 4, 9, 3);
    assert Lands(2, 4, r, 3, 9, 3);
    assert Lands(1, 4, r, 2, 9, 3);
    assert Lands(0, 4, r, 1, 9, 3);
    assert Lands(0, 3, r, 0, 9, 3);
    var q := [N, N, E, E, N, E, E, E, E];
    assert Lands(9, 1, q, 9, 9, 1);
    assert Lands(8, 1, q, 8, 9, 1);
    assert Lands(7, 1, q, 7, 9, 1);
    assert Lands(6, 1, q, 6, 9, 1);
    assert Lands(5, 1, q, 5, 9, 1);
    assert Lands(5, 2, q, 4, 9, 1);
    assert Lands(4, 2, q, 3, 9, 1);
    assert Lands(3, 2, q, 2, 9, 1);
    assert Lands(3, 3, q, 1, 9, 1);
    assert Lands(3, 4, q, 0, 9, 1);
  }

  lemma SourceTile4Front()
    ensures ValidTrack(SourceTile4().tracks[0]) && ValidTrack(SourceTile4().tracks[1])
  {
    var r := [E, S, E, E, E, E, E, E, E, N, E];
    assert Lands(9, 3, r, 11, 9, 3);
    assert Lands(8, 3, r, 10, 9, 3);
    assert Lands(8, 4, r, 9, 9, 3);
    assert Lands(7, 4, r, 8, 9, 3);
    assert Lands(6, 4, r, 7, 9, 3);
    assert Lands(5, 4, r, 6, 9, 3);
    assert Lands(4, 4, r, 5, 9, 3);
    assert Lands(3, 4, r, 4, 9, 3);
    assert Lands(2, 4, r, 3, 9, 3);
    assert Lands(1, 4, r, 2, 9, 3);
    assert Lands(1, 3, r, 1, 9, 3);
    assert Lands(0, 3, r, 0, 9, 3);
    var q := [E, N, E, E, E, E, E, E, S, E, E];
    assert Lands(9, 1, q, 11, 9, 1);
    assert Lands(8, 1, q, 10, 9, 1);
    assert Lands(7, 1, q, 9, 9, 1);
    assert Lands(7, 0, q, 8, 9, 1);
    assert Lands(6, 0, q, 7, 9, 1);
    assert Lands(5, 0, q, 6, 9, 1);
    assert Lands(4, 0, q, 5, 9, 1);
    assert Lands(3, 0, q, 4, 9, 1);
    assert Lands(2, 0, q, 3, 9, 1);
    assert Lands(1, 0, q, 2, 9, 1);
    assert Lands(1, 1, q, 1, 9, 1);
    assert Lands(0, 1, q, 0, 9, 1);
  }

  lemma SourceTile4Back()
    ensures ValidTrack(SourceTile4().tracks[2]) && ValidTrack(SourceTile4().tracks[3])
  {
    var r := [S, E, S, E, E, S, S];
    assert Lands(6, 4, r, 7, 6, 4);
    assert Lands(6, 3, r, 6, 6, 4);
    assert Lands(6, 2, r, 5, 6, 4);
    assert Lands(5, 2, r, 4, 6, 4);
    assert Lands(4, 2, r, 3, 6, 4);
    assert Lands(4, 1, r, 2, 6, 4);
    assert Lands(3, 1, r, 1, 6, 4);
    assert Lands(3, 0, r, 0, 6, 4);
    var q := [S, W, S, S, W, W, S];
    assert Lands(3, 4, q, 7, 3, 4);
    assert Lands(3, 3, q, 6, 3, 4);
    assert Lands(4, 3, q, 5, 3, 4);
    assert Lands(5, 3, q, 4, 3, 4);
    assert Lands(5, 2, q, 3, 3, 4);
    assert Lands(5, 1, q, 2, 3, 4);
    assert Lands(6, 1, q, 1, 3, 4);
    assert Lands(6, 0, q, 0, 3, 4);
  }

  lemma Tile5HeadFront()
    ensures ValidTrack(Tile5Head()[0]) && ValidTrack(Tile5Head()[1])
  {
    var r := [E, E, E, E, N, N, E, E, N];
    assert Lands(6, 0, r, 9, 6, 0);
    assert Lands(6, 1, r, 8, 6, 0);
    assert Lands(5, 1, r, 7, 6, 0);
    assert Lands(4, 1, r, 6, 6, 0);
    assert Lands(4, 2, r, 5, 6, 0);
    assert Lands(4, 3, r, 4, 6, 0);
    assert Lands(3, 3, r, 3, 6, 0);
    assert Lands(2, 3, r, 2, 6, 0);
    assert Lands(1, 3, r, 1, 6, 0);
    assert Lands(0, 3, r, 0, 6, 0);
    var q := [E, E, E, S, S, S];
    assert Lands(3, 4, q, 6, 3, 4);
    assert Lands(3, 3, q, 5, 3, 4);
    assert Lands(3, 2, q, 4, 3, 4);
    assert Lands(3, 1, q, 3, 3, 4);
    assert Lands(2, 1, q, 2, 3, 4);
    assert Lands(1, 1, q, 1, 3, 4);
    assert Lands(0, 1, q, 0, 3, 4);
  }

  lemma Tile5HeadBack()
    ensures ValidTrack(Tile5Head()[2])
  {
    var r := [E, E, S, S, E, E, E, S, E];
    assert Lands(9, 3, r, 9, 9, 3);
    assert Lands(8, 3, r, 8, 9, 3);
    assert Lands(8, 2, r, 7, 9, 3);
    assert Lands(7, 2, r, 6, 9, 3);
    assert Lands(6, 2, r, 5, 9, 3);
    assert Lands(5, 2, r, 4, 9, 3);
    assert Lands(5, 1, r, 3, 9, 3);
    assert Lands(5, 0, r, 2, 9, 3);
    assert Lands(4, 0, r, 1, 9, 3);
    assert Lands(3, 0, r, 0, 9, 3);
  }

  lemma SourceTile1Sound()
    ensures SoundTile(SourceTile1())
  {
    SourceTile1Front();
    SourceTile1Back();
    FourValidTracks(SourceTile1());
  }

  lemma SourceTile2Sound()
    ensures SoundTile(SourceTile2())
  {
    SourceTile2Front();
    SourceTile2Back();
    FourValidTracks(SourceTile2());
  }

  lemma SourceTile3Sound()
    ensures SoundTile(SourceTile3())
  {
    SourceTile3Front();
    SourceTile3Back();
    FourValidTracks(SourceTile3());
  }

  lemma SourceTile4Sound()
    ensures SoundTile(SourceTile4())
  {
    SourceTile4Front();
    SourceTile4Back();
    FourValidTracks(SourceTile4());
  }

  lemma Tile5HeadSound()
    ensures forall k :: 0 <= k < 3 ==> Sound(Tile5Head()[k])
  {
    Tile5HeadFront();
    Tile5HeadBack();
    forall k | 0 <= k < 3
      ensures Sound(Tile5Head()[k])
    {
      ValidTrackIsSound(Tile5Head()[k]);
    }
  }

  /** Every track of tiles 1 to 4 and the first three tracks of tile 5 arrive
      at their finish entrance and stay on the tile. */
  lemma SourceTracksSound()
    ensures forall i :: 1 <= i < 5 ==> SoundTile(SourceBook()[i])
    ensures forall k :: 0 <= k < 3 ==> Sound(SourceBook()[5].tracks[k])
  {
    SourceTile1Sound();
    SourceTile2Sound();
    SourceTile3Sound();
    SourceTile4Sound();
    Tile5HeadSound();
    var b := SourceBook();
    assert b[5].tracks[..3] == Tile5Head();
  }

  /** The route of a walk that ends off the tile leaves the tile. */
  lemma EndsOffTile(pt: Coord, route: seq<Step>)
    requires !InTile(Replay(pt, route))
    ensures !InTileAlong(pt, route)
  {
    WalkEndsAtReplay(pt, route);
    if InTileAlong(pt, route) {
      InTileAlongWalk(pt, route, |route|);
    }
  }

  /** Where the steps of `route` from index i on lead from cell (x, y), in
      plain integer arithmetic: Lands without its on-tile test, for the one
      track that leaves the tile. It is kept apart from Lands so that the
      validation proofs of the sound tracks, which unfold Lands step by
      step, stay as small as they are. */
  predicate EndsAt(x: int, y: int, route: seq<Step>, i: nat, tx: int, ty: int)
    decreases |route| - i
  {
    if i >= |route| then x == tx && y == ty
    else
      var d := route[i];
      EndsAt(if d == E then x + 1 else if d == W then x - 1 else x,
             if d == S then y + 1 else if d == N then y - 1 else y,
             route, i + 1, tx, ty)
  }

  lemma {:induction false} EndsAtIff(x: int, y: int, route: seq<Step>, i: nat, tx: int, ty: int)
    requires i <= |route|
    ensures EndsAt(x, y, route, i, tx, ty) <==> Replay(Coord(x, y), route[i..]) == Coord(tx, ty)
    decreases |route| - i
  {
    if i == |route| {
      assert route[i..] == [];
    } else {
      var d := route[i];
      var next := Plus(Coord(x, y), d);
      assert next.x == (if d == E then x + 1 else if d == W then x - 1 else x);
      assert next.y == (if d == S then y + 1 else if d == N then y - 1 else y);
      EndsAtIff(next.x, next.y, route, i + 1, tx, ty);
      assert route[i..][0] == d;
      assert route[i..][1..] == route[i + 1..];
    }
  }

  lemma StrayRouteEnd()
    ensures Replay(Coord(6, 4), [E, N, N, N, E, E, E]) == Coord(10, 1)
  {
    var route := [E, N, N, N, E, E, E];
    assert EndsAt(6, 4, route, 0, 10, 1);
    EndsAtIff(6, 4, route, 0, 10, 1);
    assert route[0..] == route;
  }

  lemma StrayRouteHead()
    ensures InTileAlong(Coord(6, 4), [E, N, N, N, E, E])
  {
    var head := [E, N, N, N, E, E];
    assert Lands(6, 4, head, 0, 9, 1);
    LandsIff(6, 4, head, 0, 9, 1);
    assert head[0..] == head;
  }

  lemma StrayTrackEnd()
    ensures Replay(EntranceLoc(S2), StrayTrack().route) == Coord(10, 1)
  {
    assert EntranceLoc(S2) == Coord(6, 4);
    StrayRouteEnd();
  }

  lemma StrayTrackFallsShort()
    ensures !Reaches(StrayTrack())
  {
    assert EntranceLoc(S2) == Coord(6, 4);
    StrayRouteEnd();
  }

  lemma StrayTrackLeaves()
    ensures !StaysInTile(StrayTrack())
  {
    assert EntranceLoc(S2) == Coord(6, 4);
    StrayRouteEnd();
    EndsOffTile(Coord(6, 4), [E, N, N, N, E, E, E]);
  }

  lemma StrayTrackHead()
    ensures InTileAlong(EntranceLoc(S2), StrayTrack().route[..6])
  {
    assert EntranceLoc(S2) == Coord(6, 4);
    assert StrayTrack().route[..6] == [E, N, N, N, E, E];
    StrayRouteHead();
  }

  /** The fourth track of tile 5 as listed runs one cell past the east edge,
      to (10,1), and never reaches its finish entrance w1; only that last
      cell is off the tile. */
  lemma SourceStrayTrackMisses()
    ensures Replay(EntranceLoc(S2), StrayTrack().route) == Coord(10, 1)
    ensures !Reaches(StrayTrack())
    ensures !StaysInTile(StrayTrack())
    ensures InTileAlong(EntranceLoc(S2), StrayTrack().route[..6])
  {
    StrayTrackEnd();
    StrayTrackFallsShort();
    StrayTrackLeaves();
    StrayTrackHead();
  }

  /** The placeholder tile's tracks have empty routes that stop where they
      start, short of their finish entrance. */
  lemma PlaceholderTracksFallShort()
    ensures forall k :: 0 <= k < 4 ==>
      SourceBook()[0].tracks[k].route == [] && !Reaches(SourceBook()[0].tracks[k])
  {
  }

  lemma CorrectedTrackSound()
    ensures Sound(CorrectedTrack())
  {
    assert ValidTrack(CorrectedTrack());
    ValidTrackIsSound(CorrectedTrack());
  }

  /** Appending a sound track to sound tracks gives a sound tile. */
  lemma AppendSound(h: seq<Track>, c: Track)
    requires forall k :: 0 <= k < |h| ==> Sound(h[k])
    requires Sound(c)
    ensures SoundTile(TileMap(h + [c]))
  {
    var ts := h + [c];
    forall k | 0 <= k < |ts|
      ensures Sound(ts[k])
    {
      if k < |h| {
        assert ts[k] == h[k];
      }
    }
  }

  lemma CorrectedTracksSound()
    ensures SoundTile(TileMap(Tile5Head() + [CorrectedTrack()]))
  {
    Tile5HeadSound();
    CorrectedTrackSound();
    AppendSound(Tile5Head(), CorrectedTrack());
  }

  lemma CorrectedTile5Sound()
    ensures SoundTile(CorrectedTile5())
  {
    CorrectedTracksSound();
  }

  /** With the correction, every track of every dealt tile is sound. */
  lemma BookSound()
    ensures forall i :: 1 <= i < |Book()| ==> SoundTile(Book()[i])
  {
    SourceTracksSound();
    CorrectedTile5Sound();
    forall i | 1 <= i < 6
      ensures SoundTile(Book()[i])
    {
      if i == 5 {
        assert Book()[5] == CorrectedTile5();
      } else {
        assert Book()[i] == SourceBook()[i];
      }
    }
  }
}
