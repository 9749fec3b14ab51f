# round — the track-tile engine, modelled in Dafny

`round` is a terminal game in which the player places square track tiles on
a 6 x 6 city. Each tile is a 10 x 5 grid of character cells. It carries four
tracks, and each track runs between two of eight entrances on the tile's
border. This project models the engine behind the game, all of it in
`src/main.cpp`:

- **Geometry**: steps, coordinates and deltas with their operators; the eight
  entrances with their cells and directions; the twist resolver, which turns
  an incoming and an outgoing direction into the glyph category of a cell
  (`Geometry.dfy`).
- **The tile book**: the six tiles the game defines, route replay, and what
  it means for a track to be sound: it stays on the tile and lands on its
  finish entrance (`Tiles.dfy`).
- **Stamps**: the per-tile glyph buffer, drawing one track into it, and
  drawing a whole tile with its code in the corner (`Stamp.dfy`).
- **Rendering**: copying a stamp onto the screen, plainly or in inverse video
  (`Render.dfy`).
- **The game**: the hand and its cursor moves, the city grid, the key handler
  with its place and redraw rule, and the invariants a whole run of key
  presses keeps (`Game.dfy`).

Buffer accesses that would throw `std::out_of_range` in the game (a
`vector::at` outside the buffer) are modelled as `None` of an `Option`
(`Common.dfy`). The random draw is a parameter. Every property about it holds
for any draw in the range `[1, number of tiles - 1]` that the game's dice
produce.

Two places where the code and its own comments or drawings differ. In both, the model
follows the code.

- **Crossings.** The comment on twists (src/main.cpp:69-72) names `xx` as
  two paths crossing. The tile drawings mark such cells with `+`: the art of
  tile 2 (src/main.cpp:328-334) shows `+` at (3,1), (6,1), (3,3) and (6,3),
  where its straight tracks cross. But `AddTrackStamp`
  (src/main.cpp:552-569) checks only a track's finish cell. Every cell along
  the way is overwritten unconditionally with the glyph of its own twist
  (src/main.cpp:559). So where a later track passes straight through a cell
  drawn by an earlier one, the later glyph (`─` on tile 2) wins, and no
  crossing glyph appears. `Stamps.AddTrackStampCell` states this.
- **Entrance n2.** A comment at src/main.cpp:55 places entrance n2 at (6,4),
  but `entranceLoc` (src/main.cpp:172) puts it at (6,0). The model uses (6,0).

## Model

| member | source | states |
|---|---|---|
| Geometry.Diff | src/main.cpp:133-136 | the Coord-minus-Coord operator yields the delta leading from its first argument to its second (argument order as in the code), so adding it to the first gives the second |
| Geometry.SubUndoesAdd | src/main.cpp:106-130 | subtracting a delta undoes adding it, and adding the negated delta does too |
| Geometry.Rev | src/main.cpp:139-149 | reversal never returns the direction itself |
| Geometry.RevInvolutive | src/main.cpp:139-149 | reversing twice gives back the original direction |
| Geometry.MoveIsUnit | src/main.cpp:202-212 | every step moves exactly one cell along exactly one axis |
| Geometry.MoveInjective | src/main.cpp:202-212 | distinct directions move by distinct deltas |
| Geometry.RevNegatesMove | src/main.cpp:139-149 | the reversed direction moves by the negated delta |
| Geometry.StepRoundTrip | src/main.cpp:214-218 | stepping and then stepping back (by `-` or by the reversed direction) returns to the starting cell |
| Geometry.EntranceLoc | src/main.cpp:152-179 | every entrance is a tile cell on its own edge: e at x=9, w at x=0, n at y=0, s at y=4; z0 sits at (0,0) |
| Geometry.EntranceLocInjective | src/main.cpp:152-179 | no two entrances share a cell |
| Geometry.EntranceDir | src/main.cpp:182-194 | the arrival direction points into the tile: one step along it stays on the tile, one step against it leaves |
| Geometry.ExitDir | src/main.cpp:196-199 | the leaving direction is the reverse of the arrival direction, and one step along it leaves the tile |
| Geometry.ExitsInjective | src/main.cpp:87-91 | twists are determined by the sides of the cell they connect |
| Geometry.MakeTwist | src/main.cpp:242-256 | the table never yields the crossing twist; it yields the empty twist exactly on a U-turn, and otherwise a twist whose exits are the side entered through and the side left through |
| Geometry.MakeTwistReversible | src/main.cpp:242-256 | a cell traversed backwards gets the same twist |
| Geometry.MakeTwistStraight | src/main.cpp:249-252 | going straight on gives the straight twist of the axis |
| Geometry.MakeTwistUTurn | src/main.cpp:249-252 | turning back gives the empty twist |
| Tiles.ReplayIsNet | src/main.cpp:214-215 | replaying a route moves by its net count of east-west and south-north steps, whatever the order |
| Tiles.ReplayAppend | src/main.cpp:214-215 | replaying two routes in turn is replaying their concatenation |
| Tiles.Walk | src/main.cpp:556-562 | the cells a route visits begin at the start, and each follows the one before by one step of the route |
| Tiles.WalkIsReplay | src/main.cpp:556-562 | the i-th cell of the walk is where the first i steps lead |
| Tiles.ReplayBackward | src/main.cpp:225-229 | the reversed route (steps reversed, in reverse order) brings a walker back to the start |
| Tiles.BackwardOfSuffix | src/main.cpp:225-229 | the first i steps of the reversed route reverse the last i steps of the route |
| Tiles.InTileAlongWalk | src/main.cpp:552-569 | a route that stays on the tile visits only tile cells |
| Tiles.Twists | src/main.cpp:552-566 | a track gets one twist per visited cell, including its finish, and none of them is the crossing twist |
| Tiles.TwistsConnectWalk | src/main.cpp:556-562 | at a turn, the twist of a visited cell joins the side facing the previous cell to the side facing the next one |
| Tiles.ReverseReaches | src/main.cpp:225-229 | a track that lands on its finish, read backwards from finish to start, lands on its start |
| Tiles.ReverseWalk | src/main.cpp:225-229 | the backward track visits the same cells in the opposite order |
| Tiles.ReverseTwists | src/main.cpp:242-256 | the backward track draws the same twist in every cell, so a drawn track does not depend on its direction of travel |
| Tiles.LandsIff | src/main.cpp:225-229 | the step-by-step integer validator holds exactly when the route stays on the tile and ends at the target |
| Tiles.ValidTrackIsSound | src/main.cpp:225-229 | a track passes the validator exactly when it is sound: it stays on the tile and reaches its finish entrance |
| Tiles.SourceBook | src/main.cpp:296-386 | the game's book holds six tiles of four tracks each |
| Tiles.Book | src/main.cpp:378-383 | the corrected book differs from the game's only in the fourth track of tile 5 |
| Tiles.FourValidTracks | src/main.cpp:234-236 | a tile whose four tracks pass the validator is sound |
| Tiles.SourceTile1Front | src/main.cpp:321-326 | the first two tracks of tile 1 pass the validator |
| Tiles.SourceTile1Back | src/main.cpp:321-326 | the last two tracks of tile 1 pass the validator |
| Tiles.SourceTile2Front | src/main.cpp:335-340 | the first two tracks of tile 2 pass the validator |
| Tiles.SourceTile2Back | src/main.cpp:335-340 | the last two tracks of tile 2 pass the validator |
| Tiles.SourceTile3Front | src/main.cpp:350-355 | the first two tracks of tile 3 pass the validator |
| Tiles.SourceTile3Back | src/main.cpp:350-355 | the last two tracks of tile 3 pass the validator |
| Tiles.SourceTile4Front | src/main.cpp:364-369 | the first two tracks of tile 4 pass the validator |
| Tiles.SourceTile4Back | src/main.cpp:364-369 | the last two tracks of tile 4 pass the validator |
| Tiles.Tile5HeadFront | src/main.cpp:378-380 | the first two tracks of tile 5 pass the validator |
| Tiles.Tile5HeadBack | src/main.cpp:381 | the third track of tile 5 passes the validator |
| Tiles.SourceTracksSound | src/main.cpp:296-386 | every track of tiles 1 to 4, and the first three tracks of tile 5, stay on the tile and reach their finish entrance |
| Tiles.StrayTrackEnd | src/main.cpp:382 | tile 5's fourth track, from s2 along e,n,n,n,e,e,e, ends at (10,1), one column beyond the tile's east edge |
| Tiles.SourceStrayTrackMisses | src/main.cpp:382 | that track neither reaches its finish w1 nor stays on the tile, though its first six steps do stay on the tile |
| Tiles.PlaceholderTracksFallShort | src/main.cpp:307-312 | the placeholder tile 0 has empty routes that do not reach their finish entrances |
| Tiles.CorrectedTrackSound | src/main.cpp:371-376 | the track drawn in the comment art, from s2 along e,n,n,n,e,e to e1, is sound |
| Tiles.BookSound | src/main.cpp:296-386 | every drawable tile (1 to 5) of the corrected book is sound |
| Stamps.TwistPix | src/main.cpp:261-274 | every twist draws as one glyph, and only the empty twist draws as a blank |
| Stamps.TwistPixInjective | src/main.cpp:261-274 | distinct twists draw as distinct glyphs |
| Stamps.NewStamp | src/main.cpp:509-511 | a new stamp has the asked-for size, with one empty string per cell |
| Stamps.BlankOut | src/main.cpp:513-515 | blanking keeps the size and makes every cell blank |
| Stamps.LocInRange | src/main.cpp:517-521 | a cell inside the stamp has a row-major index inside the buffer, and the index maps back to the cell |
| Stamps.CellOfInRange | src/main.cpp:517-521 | every buffer index is the row-major index of exactly one cell inside the stamp |
| Stamps.At | src/main.cpp:523-524 | reading a cell succeeds exactly when its row-major index is inside the buffer, and gives the glyph there |
| Stamps.Put | src/main.cpp:523 | writing a cell succeeds exactly when its index is inside the buffer; afterwards that cell reads back the glyph and every other index is unchanged |
| Stamps.Paint | src/main.cpp:556-561 | writing a trail of glyphs succeeds exactly when every crumb lands in the buffer, and then each index holds the last glyph written to it, or its old glyph if none was |
| Stamps.AddTrackStamp | src/main.cpp:552-569 | drawing a track succeeds exactly when every visited cell, finish included, has an index inside the buffer, and keeps the stamp's size |
| Stamps.AddTrackStampFrame | src/main.cpp:552-569 | cells the track never visits keep their glyph |
| Stamps.AddTrackStampCell | src/main.cpp:556-561 | a cell visited before the finish, and not again, ends with its twist's glyph whatever it held before: intermediate writes are never turned into crossings |
| Stamps.AddTrackStampFinishFresh | src/main.cpp:563-568 | a finish cell the track has not visited before ends with the finish twist's glyph if it was blank, and with the crossing glyph otherwise |
| Stamps.AddTrackStampFinishRevisit | src/main.cpp:563-568 | a finish cell the track already drew through becomes a crossing, unless that earlier glyph was the blank of a U-turn |
| Stamps.StampTracks | src/main.cpp:586-588 | drawing the tracks in turn succeeds exactly when every track fits the buffer |
| Stamps.StampTracksFrame | src/main.cpp:586-588 | cells no track visits keep their glyph |
| Stamps.NatToString | src/main.cpp:589 | the decimal text of a number is non-empty, all digits, has no leading zero, and reads back as the number |
| Stamps.NatToStringInjective | src/main.cpp:589 | distinct codes print differently |
| Stamps.MakeTileStamp | src/main.cpp:581-591 | drawing a tile succeeds exactly when its tracks fit the 50-cell buffer; the result is 10 x 5, shows the code at (0,0), and is blank wherever no track goes |
| Stamps.SoundTileStamps | src/main.cpp:581-591 | a sound tile always draws |
| Stamps.BookStamps | src/main.cpp:581-591 | every drawable tile of the corrected book draws, for any code |
| Stamps.EmptyRouteFits | src/main.cpp:307-312 | a track with an empty route fits the tile, so the placeholder tile 0 draws too |
| Stamps.SevenStepFits | src/main.cpp:382 | a seven-step route from column 6 that never steps west, stays on the tile for six steps and ends at (10,1) still fits the buffer, and only its finish uses index 20 |
| Stamps.StrayTrackAliases | src/main.cpp:382 | tile 5's fourth track fits the buffer although it ends at (10,1): that cell's index is the index of (0,2), its finish twist is the empty one, because it arrives travelling east and leaves west, and no earlier cell of the track has index 20 |
| Stamps.UTurnFinishInvisible | src/main.cpp:563-568 | a track whose walk ends on (10,1) with the empty twist leaves the blank at index 20, the cell (0,2), blank |
| Stamps.SourceTile5Stamps | src/main.cpp:581-591 | the game's tile 5 still draws, stray track included |
| Stamps.EastFirstCell | src/main.cpp:378-381 | no cell of a walk that stays on the tile, starts off row 2, steps east first and never steps west has index 20 |
| Stamps.EastFirstUntouched | src/main.cpp:378-381 | tracks of that shape that stay on the tile never visit index 20 |
| Stamps.Tile5HeadAvoids20 | src/main.cpp:378-381 | the first three tracks of the game's tile 5 are sound and none of them touches index 20 |
| Stamps.StampTracksAppend | src/main.cpp:586-588 | drawing one more track after a list that draws is drawing that track over the list's stamp |
| Stamps.AppendStampsBlank | src/main.cpp:563-568 | on a stamp whose cell 20 is blank, tracks that never visit index 20 followed by a track whose only visit there is an empty U-turn finish keep that cell blank |
| Stamps.AppendInvisible | src/main.cpp:581-591 | appending a track that ends on (10,1) with the empty twist, and touches index 20 nowhere earlier, to tracks that never touch index 20 gives a tile that draws with index 20 still blank |
| Screens.GlyphAt | src/main.cpp:527-533 | a covered screen cell receives the stamp glyph at its offset-shifted position |
| Screens.Blit | src/main.cpp:527-543 | after the row-major copy, every screen pixel holds the shifted stamp's glyph where covered, and is otherwise unchanged |
| Screens.Render | src/main.cpp:527-533 | rendering puts each stamp glyph at its shifted position, keeps every covered pixel's inverted flag, and leaves every uncovered pixel alone |
| Screens.RenderInverted | src/main.cpp:535-543 | the same copy, but every covered pixel becomes inverted |
| Game.NewHand | src/main.cpp:431-433 | a fresh hand holds the code, is off the board and sits at (0,0) |
| Game.IsHereUnique | src/main.cpp:437-440 | an off-board hand is nowhere on the board, and an on-board hand is at exactly one cell |
| Game.MoveLeft | src/main.cpp:447-456 | off the board nothing happens; at column 0 the hand leaves the board; otherwise it moves one column west |
| Game.MoveRight | src/main.cpp:458-467 | an off-board hand enters the board; at the east edge nothing happens; otherwise it moves one column east |
| Game.MoveUp | src/main.cpp:469-477 | off the board or at the top row nothing happens; otherwise it moves one row north |
| Game.MoveDown | src/main.cpp:479-487 | off the board or at the bottom row nothing happens; otherwise it moves one row south |
| Game.RightUndoesLeft | src/main.cpp:447-467 | on the board, moving left then right returns the hand to where it was |
| Game.LeftUndoesRight | src/main.cpp:447-467 | away from the east edge, moving right then left returns the hand to where it was |
| Game.DownUndoesUp | src/main.cpp:469-487 | below the top row, moving up then down returns the hand |
| Game.UpUndoesDown | src/main.cpp:469-487 | above the bottom row, moving down then up returns the hand |
| Game.MoveAll | src/main.cpp:739-754 | any sequence of arrow keys keeps the code and keeps the hand on a valid cell or off the board in column 0 |
| Game.MoveAllAppend | src/main.cpp:739-754 | two key sequences in turn move the hand as their concatenation does |
| Game.EveryPositionReachable | src/main.cpp:739-754 | from a fresh hand, arrow keys reach every board cell and the off-board position |
| Game.NewCity | src/main.cpp:405-407 | a new city has the asked-for shape and every cell vacant |
| Game.CityAt | src/main.cpp:410-420 | reading a cell succeeds exactly inside the grid, and gives the code there |
| Game.IsVacant | src/main.cpp:422-426 | a cell is vacant exactly when it holds code 0 |
| Game.SetCell | src/main.cpp:416-420 | writing a cell succeeds exactly inside the grid, stores the code there, and changes nothing else |
| Game.Start | src/main.cpp:709-715 | the game opens on an empty 6 x 6 city with a fresh hand holding the first draw |
| Game.Place | src/main.cpp:755-761 | placing does nothing off the board or on an occupied cell; on a vacant cell it stores the hand's code there and deals a fresh hand with the new draw; no other cell changes |
| Game.Redraw | src/main.cpp:762-765 | a redraw keeps the city and deals a fresh, off-board hand |
| Game.Handle | src/main.cpp:733-767 | q quits, arrows steer, Return or space place, n or ? redraw, and any other key is left unhandled with the state unchanged |
| Game.StartInv | src/main.cpp:709-715 | the opening state satisfies the game invariant |
| Game.PlaceKeepsInv | src/main.cpp:755-761 | under the invariant, placing always succeeds, keeps the invariant and never changes an occupied cell |
| Game.HandleKeepsInv | src/main.cpp:733-767 | every key keeps the invariant and never changes an occupied cell |
| Game.KeepsTransitive | src/main.cpp:755-761 | an occupied cell kept across two steps is kept across both |
| Game.RunKeepsInv | src/main.cpp:705-771 | for any key presses and any draws in [1, number of tiles), the game keeps the city 6 x 6 and every code in range, and never changes an occupied cell |

## Left out

- The terminal UI library (`ftxui`) is not part of this model. This covers the event loop, components, boxes and borders (`round_game`'s
  renderer, src/main.cpp:717-731), and the `BoardNode` and `HandNode` nodes
  (src/main.cpp:613-701). They only compose `MakeTileStamp` with `render`
  and `render_inverted` at offsets computed from the hand and city, and the
  model covers both of those.
- Screens.Render: the screen is a plain grid of glyph and inverted flag. The
  library's other pixel attributes are not modelled, and neither is the display width
  of a glyph. The library drops writes outside the screen, and the model clips
  in the same way.
- `Rando` (src/main.cpp:27-40): the random generator is replaced by a draw
  parameter. Every lemma holds for every draw in the dice's range.
- `main`, command-line parsing and version text (src/main.cpp:776-807) are
  outside the engine.
- `keys = event.character()` (src/main.cpp:734) only feeds a text box on the
  screen, so it is not modelled.
- Fixed-width integers: `size_t` codes and `int` coordinates are unbounded
  here. `Stamp::loc` casts a negative index to a huge `size_t`, which `at` then rejects. The model
  rejects a negative index directly, which has the same effect.
- Stamps.MakeTileStamp: `std::to_string` is modelled by `NatToString`
  (decimal, no sign, no leading zeros).
- Stamps.AppendInvisible: the claim that the game's own tile 5 draws with
  index 20 blank is proved as its parts, not as one statement about the
  literal tile. `Stamps.Tile5HeadAvoids20` proves the hypotheses about the
  first three tracks. `Stamps.StrayTrackFits` and `Stamps.StrayTrackAliases`
  prove those about the fourth. `Stamps.AppendInvisible` joins them for any tile of that shape. The
  joined statement about the literal tile's stamp is not written, because
  the verifier unfolds both literal track lists at once and does not finish
  in reasonable time.
- Commented-out code (`TileNode`, `LuckyTile`, `MakeLuckyTile`, the old hand
  element) is not modelled.

## Findings

| source | as written | input that shows it | evidently intended | confidence | as-written member | corrected member |
|---|---|---|---|---|---|---|
| src/main.cpp:382 | tile 5's fourth track goes from s2 to w1 along e,n,n,n,e,e,e | replaying it from s2 (6,4) ends at (10,1), off the tile's east edge and nowhere near w1 (0,1); the finish write lands on buffer index 20, which is cell (0,2) | the track drawn in the art at src/main.cpp:371-376, from s2 to e1 along e,n,n,n,e,e | not executed | Tiles.SourceStrayTrackMisses | Tiles.CorrectedTrackSound |

The bug does not show on screen. The stray track's finish twist is the empty
one, because it arrives travelling east and leaves travelling west. So the
write at index 20 is a blank on a blank cell (`Stamps.StrayTrackAliases`,
`Stamps.UTurnFinishInvisible`). The other tracks of tile 5 never touch that
cell (`Stamps.Tile5HeadAvoids20`), so the cell stays blank in the tile's
stamp (`Stamps.AppendInvisible`). The cells before the finish are the ones the
intended track draws. The corrected book `Tiles.Book` replaces just this
track. `Tiles.BookSound` and `Stamps.BookStamps` are stated about the
corrected book.
