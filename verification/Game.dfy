/** The game state beside the tile engine: the 6 x 6 city of placed tile
    codes, the hand holding the tile to place and its cursor, and the key
    rules that move the cursor, place the tile and draw a new one.

    The random draw is a parameter: the game's dice yield codes from 1 to
    the book size minus one, so code 0, the placeholder tile, is never dealt.
 */
module Game {
  import opened Common

  const BoardWidth: nat := 6
  const BoardHeight: nat := 6

  // ---------------------------------------------------------------------
  // The hand

  /** The tile in hand and its cursor; off the board the hand is shown
      beside it and the cursor sits in column 0. */
  datatype Hand = Hand(code: nat, onboard: bool, x: nat, y: nat)

  predicate HandInv(h: Hand) {
    h.x < BoardWidth && h.y < BoardHeight && (!h.onboard ==> h.x == 0)
  }

  /** A hand freshly holding `code`, off the board; resetting the hand
      replaces it with this one. */
  function NewHand(code: nat): (h: Hand)
    ensures HandInv(h)
    ensures h.code == code && !h.onboard && h.x == 0 && h.y == 0
  {
    Hand(code, false, 0, 0)
  }

  /** The cursor marks board cell (x, y). */
  predicate IsHere(h: Hand, x: nat, y: nat) {
    h.onboard && h.x == x && h.y == y
  }

  /** The cursor marks at most one cell, and none while off the board. */
  lemma IsHereUnique(h: Hand, x: nat, y: nat, x': nat, y': nat)
    ensures !h.onboard ==> !IsHere(h, x, y)
    ensures IsHere(h, x, y) && IsHere(h, x', y') ==> x == x' && y == y'
  {
  }

  function MoveLeft(h: Hand): (r: Hand)
    ensures r.code == h.code
    ensures HandInv(h) ==> HandInv(r)
    ensures !h.onboard ==> r == h
    ensures h.onboard && h.x == 0 ==> !r.onboard && r.x == 0 && r.y == h.y
    ensures h.onboard && h.x > 0 ==> r.onboard && r.x + 1 == h.x && r.y == h.y
  {
    if !h.onboard then h
    else if h.x == 0 then h.(onboard := false)
    else h.(x := h.x - 1)
  }

  function MoveRight(h: Hand): (r: Hand)
    ensures r.code == h.code
    ensures HandInv(h) ==> HandInv(r)
    ensures !h.onboard ==> r.onboard && r.x == h.x && r.y == h.y
    ensures h.onboard && h.x == BoardWidth - 1 ==> r == h
    ensures h.onboard && h.x != BoardWidth - 1 ==> r.onboard && r.x == h.x + 1 && r.y == h.y
  {
    if !h.onboard then h.(onboard := true)
    else if h.x == BoardWidth - 1 then h
    else h.(x := h.x + 1)
  }

  function MoveUp(h: Hand): (r: Hand)
    ensures r.code == h.code
    ensures HandInv(h) ==> HandInv(r)
    ensures !h.onboard || h.y == 0 ==> r == h
    ensures h.onboard && h.y > 0 ==> r.onboard && r.x == h.x && r.y + 1 == h.y
  {
    if !h.onboard then h
    else if h.y == 0 then h
    else h.(y := h.y - 1)
  }

  function MoveDown(h: Hand): (r: Hand)
    ensures r.code == h.code
    ensures HandInv(h) ==> HandInv(r)
    ensures !h.onboard || h.y == BoardHeight - 1 ==> r == h
    ensures h.onboard && h.y != BoardHeight - 1 ==> r.onboard && r.x == h.x && r.y == h.y + 1
  {
    if !h.onboard then h
    else if h.y == BoardHeight - 1 then h
    else h.(y := h.y + 1)
  }

  /** Stepping left from anywhere on the board, even off its west edge, and
      then right returns the hand to where it was. */
  lemma RightUndoesLeft(h: Hand)
    requires HandInv(h) && h.onboard
    ensures MoveRight(MoveLeft(h)) == h
  {
  }

  /** Stepping right and back left returns the hand, unless the right step
      was blocked by the east edge. */
  lemma LeftUndoesRight(h: Hand)
    requires HandInv(h) && h.x < BoardWidth - 1
    ensures MoveLeft(MoveRight(h)) == h
  {
  }

  lemma DownUndoesUp(h: Hand)
    requires HandInv(h) && h.onboard && h.y > 0
    ensures MoveDown(MoveUp(h)) == h
  {
  }

  lemma UpUndoesDown(h: Hand)
    requires h.onboard && h.y < BoardHeight - 1
    ensures MoveUp(MoveDown(h)) == h
  {
  }

  // ---------------------------------------------------------------------
  // Steering the hand with the arrow keys

  datatype Arrow = Left | Right | Up | Down

  function MoveBy(h: Hand, a: Arrow): Hand {
    match a
    case Left => MoveLeft(h)
    case Right => MoveRight(h)
    case Up => MoveUp(h)
    case Down => MoveDown(h)
  }

  function MoveAll(h: Hand, arrows: seq<Arrow>): (r: Hand)
    ensures r.code == h.code
    ensures HandInv(h) ==> HandInv(r)
    decreases |arrows|
  {
    if arrows == [] then h else MoveAll(MoveBy(h, arrows[0]), arrows[1..])
  }

  lemma {:induction false} MoveAllAppend(h: Hand, a: seq<Arrow>, b: seq<Arrow>)
    ensures MoveAll(h, a + b) == MoveAll(MoveAll(h, a), b)
    decreases |a|
  {
    if a == [] {
      assert a + b == b;
    } else {
      assert (a + b)[1..] == a[1..] + b;
      MoveAllAppend(MoveBy(h, a[0]), a[1..], b);
    }
  }

  function Repeat(a: Arrow, n: nat): (r: seq<Arrow>)
    ensures |r| == n
    ensures forall i :: 0 <= i < n ==> r[i] == a
  {
    if n == 0 then [] else [a] + Repeat(a, n - 1)
  }

  /** n right steps on the board move the cursor n columns east. */
  lemma {:induction false} RepeatRight(h: Hand, n: nat)
    requires h.onboard && h.x + n < BoardWidth
    ensures MoveAll(h, Repeat(Right, n)) == h.(x := h.x + n)
    decreases n
  {
    if n > 0 {
      assert Repeat(Right, n)[1..] == Repeat(Right, n - 1);
      RepeatRight(MoveRight(h), n - 1);
    }
  }

  /** n down steps on the board move the cursor n rows south. */
  lemma {:induction false} RepeatDown(h: Hand, n: nat)
    requires h.onboard && h.y + n < BoardHeight
    ensures MoveAll(h, Repeat(Down, n)) == h.(y := h.y + n)
    decreases n
  {
    if n > 0 {
      assert Repeat(Down, n)[1..] == Repeat(Down, n - 1);
      RepeatDown(MoveDown(h), n - 1);
    }
  }

  /** The arrow keys that steer a fresh hand to `target`. */
  function SteerTo(target: Hand): seq<Arrow> {
    [Right] + Repeat(Right, target.x) + Repeat(Down, target.y)
      + (if target.onboard then [] else [Left])
  }

  /** From a fresh hand the arrow keys reach every position the hand
      invariant allows, on the board or off it in any row. */
  lemma {:induction false} EveryPositionReachable(target: Hand)
    requires HandInv(target)
    ensures MoveAll(NewHand(target.code), SteerTo(target)) == target
  {
    var h0 := NewHand(target.code);
    var h1 := MoveRight(h0);
    assert MoveAll(h0, [Right]) == h1;
    RepeatRight(h1, target.x);
    var h2 := h1.(x := target.x);
    RepeatDown(h2, target.y);
    var h3 := h2.(y := target.y);
    var rs, ds := Repeat(Right, target.x), Repeat(Down, target.y);
    var tail: seq<Arrow> := if target.onboard then [] else [Left];
    MoveAllAppend(h0, [Right], rs);
    MoveAllAppend(h0, [Right] + rs, ds);
    MoveAllAppend(h0, [Right] + rs + ds, tail);
    if !target.onboard {
      assert MoveAll(h3, [Left]) == MoveLeft(h3);
    }
  }

  // ---------------------------------------------------------------------
  // The city

  /** Placed tile codes, `rows[y][x]` for board cell (x, y); 0 is vacant. */
  datatype City = City(rows: seq<seq<nat>>)

  /** A city of `width` x `height` cells. */
  predicate Shaped(c: City, width: nat, height: nat) {
    |c.rows| == height && forall y :: 0 <= y < |c.rows| ==> |c.rows[y]| == width
  }

  /** A city with every cell vacant. */
  function NewCity(width: nat, height: nat): (c: City)
    ensures Shaped(c, width, height)
    ensures forall y, x :: 0 <= y < height && 0 <= x < width ==> c.rows[y][x] == 0
  {
    City(seq(height, _ => seq(width, _ => 0)))
  }

  /** The code at cell (x, y); None when the cell is off the city. */
  function CityAt(c: City, x: nat, y: nat): (r: Option<nat>)
    ensures r.Some? <==> y < |c.rows| && x < |c.rows[y]|
    ensures r.Some? ==> r.value == c.rows[y][x]
  {
    if y < |c.rows| && x < |c.rows[y]| then Some(c.rows[y][x]) else None
  }

  function IsVacant(c: City, x: nat, y: nat): (r: Option<bool>)
    ensures r.Some? <==> CityAt(c, x, y).Some?
    ensures r == Some(true) <==> CityAt(c, x, y) == Some(0)
  {
    match CityAt(c, x, y)
    case None => None
    case Some(code) => Some(code == 0)
  }

  /** Writes one cell; None when it is off the city. Every other cell and
      the city's shape are unchanged. */
  function SetCell(c: City, x: nat, y: nat, code: nat): (r: Option<City>)
    ensures r.Some? <==> CityAt(c, x, y).Some?
    ensures r.Some? ==> CityAt(r.value, x, y) == Some(code)
    ensures r.Some? ==> |r.value.rows| == |c.rows|
    ensures r.Some? ==> forall j :: 0 <= j < |c.rows| ==> |r.value.rows[j]| == |c.rows[j]|
    ensures r.Some? ==> forall j, i :: 0 <= j < |c.rows| && 0 <= i < |c.rows[j]| && (i, j) != (x, y) ==>
      r.value.rows[j][i] == c.rows[j][i]
  {
    if y < |c.rows| && x < |c.rows[y]| then
      var row: seq<nat> := c.rows[y][x := code];
      Some(City(c.rows[y := row]))
    else None
  }

  // ---------------------------------------------------------------------
  // The game

  datatype State = State(city: City, hand: Hand)

  /** The opening position: an empty 6 x 6 city and a hand holding the
      first draw. */
  function Start(draw: nat): (st: State)
    ensures Shaped(st.city, BoardWidth, BoardHeight)
    ensures forall y, x :: 0 <= y < BoardHeight && 0 <= x < BoardWidth ==> CityAt(st.city, x, y) == Some(0)
    ensures st.hand == NewHand(draw)
  {
    State(NewCity(BoardWidth, BoardHeight), NewHand(draw))
  }

  /** The place rule: a hand on the board over a vacant cell puts its tile
      there and takes the next draw; otherwise nothing happens. None when
      the cursor is off the city. */
  function Place(st: State, draw: nat): (r: Option<State>)
    ensures !st.hand.onboard ==> r == Some(st)
    ensures st.hand.onboard ==> (r.Some? <==> CityAt(st.city, st.hand.x, st.hand.y).Some?)
    ensures st.hand.onboard && IsVacant(st.city, st.hand.x, st.hand.y) == Some(false) ==> r == Some(st)
    ensures st.hand.onboard && IsVacant(st.city, st.hand.x, st.hand.y) == Some(true) ==>
      r.Some? && r.value.hand == NewHand(draw)
      && CityAt(r.value.city, st.hand.x, st.hand.y) == Some(st.hand.code)
    ensures r.Some? ==> forall j, i ::
      0 <= j < |st.city.rows| && 0 <= i < |st.city.rows[j]| && (i, j) != (st.hand.x, st.hand.y) ==>
        CityAt(r.value.city, i, j) == Some(st.city.rows[j][i])
  {
    if !st.hand.onboard then Some(st)
    else match IsVacant(st.city, st.hand.x, st.hand.y)
      case None => None
      case Some(vacant) =>
        if !vacant then Some(st)
        else match SetCell(st.city, st.hand.x, st.hand.y, st.hand.code)
          case None => None
          case Some(c) => Some(State(c, NewHand(draw)))
  }

  /** The redraw rule: the hand is replaced by a fresh one holding the
      draw; the city is untouched. */
  function Redraw(st: State, draw: nat): (r: State)
    ensures r.city == st.city && r.hand == NewHand(draw)
  {
    State(st.city, NewHand(draw))
  }

  /** The keys the game reacts to. */
  datatype Key = ArrowKey(a: Arrow) | Return | Character(c: char) | Other

  /** What a key press does: the new state, whether the key was consumed
      and whether it ends the game. */
  datatype Reaction = Reaction(state: State, handled: bool, quit: bool)

  /** The key handler: q quits, the arrows steer, Return or space places,
      n or ? redraws, anything else is passed on. */
  function Handle(st: State, key: Key, draw: nat): (r: Option<Reaction>)
    ensures key == Character('q') ==> r == Some(Reaction(st, true, true))
    ensures key.ArrowKey? ==> r == Some(Reaction(st.(hand := MoveBy(st.hand, key.a)), true, false))
    ensures key == Return || key == Character(' ') ==>
      r.Some? == Place(st, draw).Some? && (r.Some? ==> r.value == Reaction(Place(st, draw).value, true, false))
    ensures key == Character('n') || key == Character('?') ==> r == Some(Reaction(Redraw(st, draw), true, false))
    ensures key == Other || (key.Character? && key.c !in {'q', ' ', 'n', '?'}) ==> r == Some(Reaction(st, false, false))
  {
    match key
    case ArrowKey(a) => Some(Reaction(st.(hand := MoveBy(st.hand, a)), true, false))
    case Return => PlaceReaction(st, draw)
    case Other => Some(Reaction(st, false, false))
    case Character(c) =>
      if c == 'q' then Some(Reaction(st, true, true))
      else if c == ' ' then PlaceReaction(st, draw)
      else if c == 'n' || c == '?' then Some(Reaction(Redraw(st, draw), true, false))
      else Some(Reaction(st, false, false))
  }

  function PlaceReaction(st: State, draw: nat): Option<Reaction> {
    match Place(st, draw)
    case None => None
    case Some(next) => Some(Reaction(next, true, false))
  }

  /** Feeds keys to the handler, one draw per key (used only by the keys
      that deal), until a key quits or the keys run out. */
  function Run(st: State, keys: seq<Key>, draws: seq<nat>): Option<State>
    requires |draws| == |keys|
    decreases |keys|
  {
    if keys == [] then Some(st)
    else match Handle(st, keys[0], draws[0])
      case None => None
      case Some(re) => if re.quit then Some(re.state) else Run(re.state, keys[1..], draws[1..])
  }

  // ---------------------------------------------------------------------
  // Invariants of play

  /** Every code in play names a tile of a book of `size` tiles, and only
      the placeholder 0 marks a vacant cell. */
  predicate CodesIn(st: State, size: nat) {
    && 1 <= st.hand.code < size
    && forall y, x :: 0 <= y < |st.city.rows| && 0 <= x < |st.city.rows[y]| ==>
      st.city.rows[y][x] < size
  }

  predicate GameInv(st: State, size: nat) {
    Shaped(st.city, BoardWidth, BoardHeight) && HandInv(st.hand) && CodesIn(st, size)
  }

  lemma StartInv(draw: nat, size: nat)
    requires 1 <= draw < size
    ensures GameInv(Start(draw), size)
  {
  }

  /** A cell holding a code keeps it for the rest of the game. */
  predicate Keeps(st: State, next: State) {
    forall y, x :: 0 <= y < |st.city.rows| && 0 <= x < |st.city.rows[y]| && st.city.rows[y][x] != 0 ==>
      CityAt(next.city, x, y) == Some(st.city.rows[y][x])
  }

  /** In a game that keeps its invariant no placement fails, the invariant
      survives, and placement only ever fills a vacant cell. */
  lemma PlaceKeepsInv(st: State, draw: nat, size: nat)
    requires GameInv(st, size) && 1 <= draw < size
    ensures Place(st, draw).Some?
    ensures GameInv(Place(st, draw).value, size)
    ensures Keeps(st, Place(st, draw).value)
  {
    var h := st.hand;
    if h.onboard && st.city.rows[h.y][h.x] == 0 {
      var c := SetCell(st.city, h.x, h.y, h.code).value;
      assert Shaped(c, BoardWidth, BoardHeight);
    }
  }

  lemma HandleKeepsInv(st: State, key: Key, draw: nat, size: nat)
    requires GameInv(st, size) && 1 <= draw < size
    ensures Handle(st, key, draw).Some?
    ensures GameInv(Handle(st, key, draw).value.state, size)
    ensures Keeps(st, Handle(st, key, draw).value.state)
  {
    PlaceKeepsInv(st, draw, size);
  }

  lemma KeepsTransitive(a: State, b: State, c: State)
    requires Keeps(a, b) && Keeps(b, c)
    requires Shaped(b.city, BoardWidth, BoardHeight)
    ensures Keeps(a, c)
  {
    forall y, x | 0 <= y < |a.city.rows| && 0 <= x < |a.city.rows[y]| && a.city.rows[y][x] != 0
      ensures CityAt(c.city, x, y) == Some(a.city.rows[y][x])
    {
      assert CityAt(b.city, x, y) == Some(a.city.rows[y][x]);
    }
  }

  /** Over any run of key presses with draws in range, the game never fails
      a checked access, keeps its invariant, and never changes an occupied
      cell. */
  lemma {:induction false} RunKeepsInv(st: State, keys: seq<Key>, draws: seq<nat>, size: nat)
    requires GameInv(st, size) && |draws| == |keys|
    requires forall i :: 0 <= i < |draws| ==> 1 <= draws[i] < size
    ensures Run(st, keys, draws).Some?
    ensures GameInv(Run(st, keys, draws).value, size)
    ensures Keeps(st, Run(st, keys, draws).value)
    decreases |keys|
  {
    if keys != [] {
      HandleKeepsInv(st, keys[0], draws[0], size);
      var re := Handle(st, keys[0], draws[0]).value;
      if !re.quit {
        RunKeepsInv(re.state, keys[1..], draws[1..], size);
        KeepsTransitive(st, re.state, Run(re.state, keys[1..], draws[1..]).value);
      }
    }
  }
}
