/**
 * The snake and the play state: the heading and its joystick rule, one
 * movement step with its wall test, growth on food, food placement, and the
 * setup of a round. The source keeps this state in globals (`snake`,
 * `food`, the screen at 0x0400); here it is one `Board` object.
 */
module Game {
  import opened Grid
  import opened Deques
  import opened Screen

  /**
   * A heading is valid when exactly one of its byte deltas is non-zero and
   * each is 0, 1 or 255 (the byte that stores -1).
   */
  predicate ValidHeading(dx: Byte, dy: Byte) {
    (dx == 0) != (dy == 0) && dx in {0, 1, Minus1} && dy in {0, 1, Minus1}
  }

  /**
   * `snake_input`: a joystick deflection is taken only on the axis the snake
   * is not moving along; anything else leaves the heading as it is.
   */
  function Steer(dx: Byte, dy: Byte, joyX: int, joyY: int): (h: (Byte, Byte))
    ensures ValidHeading(dx, dy) ==> ValidHeading(h.0, h.1)
    ensures dx != 0 ==> h.0 == dx || h.0 == 0
    ensures dy != 0 ==> h.1 == dy || h.1 == 0
    ensures dx == 0 && (joyX == -1 || joyX == 1) ==> Signed(h.0) == joyX && h.1 == 0
    ensures dx != 0 && dy == 0 && (joyY == -1 || joyY == 1) ==> h.0 == 0 && Signed(h.1) == joyY
    ensures (if dx == 0 then joyX != -1 && joyX != 1 else dy != 0 || (joyY != -1 && joyY != 1)) ==> h == (dx, dy)
  {
    if dx == 0 then
      if joyX == -1 then (Minus1, 0)
      else if joyX == 1 then (1, 0)
      else (dx, dy)
    else if dy == 0 then
      if joyY == -1 then (0, Minus1)
      else if joyY == 1 then (0, 1)
      else (dx, dy)
    else (dx, dy)
  }

  /**
   * The cell `snake_move` steps to from `cell`: decode it, add the byte
   * deltas with 8-bit wrap-around, and reject a column past the right edge
   * (stepping left from column 0 wraps to 255), a row past the bottom, or
   * row 0 (stepping up from row 0 wraps to 255).
   */
  function NextHead(cell: Word, dx: Byte, dy: Byte): (r: Option<Word>)
    ensures r.Some? ==> Playable(r.value)
  {
    var (x0, y0) := Undex(cell);
    var x := (x0 + dx) % 0x100;
    var y := (y0 + dy) % 0x100;
    if x >= W || y >= H || y < 1 then None else Some(Index(x, y))
  }

  /**
   * For a cell of the screen and a valid heading, the byte arithmetic of
   * `NextHead` is the signed step: the snake dies exactly when the
   * neighbouring cell in its direction is off the board or in the status
   * row, and otherwise moves onto that cell.
   */
  lemma NextHeadSigned(cell: Word, dx: Byte, dy: Byte)
    requires cell < Cells && ValidHeading(dx, dy)
    ensures var x, y := cell % W + Signed(dx), cell / W + Signed(dy);
      NextHead(cell, dx, dy) == if 0 <= x < W && 1 <= y < H then Some(y * W + x) else None
  {
    var (x0, y0) := Undex(cell);
    assert x0 == cell % W && y0 == cell / W;
  }

  /** Heading left from column 0 hits the wall. */
  lemma LeftWall()
    ensures NextHead(Index(0, 5), Minus1, 0) == None
  {
  }

  /** Heading up from row 1 hits the status row. */
  lemma TopWall()
    ensures NextHead(Index(5, 1), 0, Minus1) == None
  {
  }

  /** The cell `food_move` picks from the two `rand()` results `rx` and `ry`. */
  function FoodCell(rx: nat, ry: nat): (cell: Word)
    ensures Playable(cell)
    ensures Undex(cell) == (rx % W, 1 + ry % (H - 1))
  {
    UndexIndex(rx % W, 1 + ry % (H - 1));
    Index(rx % W, 1 + ry % (H - 1))
  }

  /** Every playable cell can be picked for the food. */
  lemma FoodCellCovers(cell: Word)
    requires Playable(cell)
    ensures FoodCell(cell % W, cell / W - 1) == cell
  {
    IndexUndex(cell);
  }

  /** The body after pushing a new head in front: a full ring drops it. */
  function Pushed(body: seq<Word>, cell: Word): seq<Word> {
    if |body| < MaxLen then [cell] + body else body
  }

  /** Every element of a body lies below the status row. */
  predicate AllPlayable(body: seq<Word>) {
    forall k :: 0 <= k < |body| ==> Playable(body[k])
  }

  /**
   * A move onto food: the new head leads and the rest of the body, tail
   * included, stays, so the length grows by one (unless 255 are stored).
   */
  lemma EatGrows(body: seq<Word>, cell: Word)
    requires 1 <= |body| <= MaxLen
    ensures |body| < MaxLen ==> Pushed(body, cell) == [cell] + body && |Pushed(body, cell)| == |body| + 1
    ensures |body| == MaxLen ==> Pushed(body, cell) == body
    ensures Pushed(body, cell)[|Pushed(body, cell)| - 1] == body[|body| - 1]
  {
  }

  /**
   * A move elsewhere: the new head leads, the old tail is the cell dropped
   * from the back, and the length stays (a full ring loses its push and so
   * shrinks by one).
   */
  lemma SlideKeepsLength(body: seq<Word>, cell: Word)
    requires 1 <= |body| <= MaxLen
    ensures var p := Pushed(body, cell);
      p[|p| - 1] == body[|body| - 1] &&
      (|body| < MaxLen ==> |p[..|p| - 1]| == |body| && p[..|p| - 1] == [cell] + body[..|body| - 1]) &&
      (|body| == MaxLen ==> p[..|p| - 1] == body[..|body| - 1])
  {
  }

  /** Pushing a playable cell, and then dropping the back, keeps every cell playable. */
  lemma PushedPlayable(body: seq<Word>, cell: Word)
    requires 1 <= |body| && AllPlayable(body) && Playable(cell)
    ensures var p := Pushed(body, cell); AllPlayable(p) && AllPlayable(p[..|p| - 1])
  {
  }

  /** What one call of `snake_move` leaves: whether the snake lives, its body, the screen and the food. */
  datatype Outcome = Outcome(alive: bool, body: seq<Word>, screen: seq<Byte>, food: Word)

  /**
   * One call of `snake_move` on values: step the head; at a wall nothing
   * changes. Otherwise push the new head and draw it; on the food, add to
   * the score and place new food; elsewhere pop the back cell and blank it.
   */
  function Move(body: seq<Word>, screen: seq<Byte>, food: Word, dx: Byte, dy: Byte, rx: nat, ry: nat): (o: Outcome)
    requires body != [] && AllPlayable(body) && |screen| == Cells
    ensures |o.screen| == Cells
  {
    match NextHead(body[0], dx, dy)
    case None => Outcome(false, body, screen, food)
    case Some(cell) =>
      var pushed, drawn := Pushed(body, cell), screen[cell := SnakeGlyph];
      if cell == food then
        Outcome(true, pushed, ScoreAdded(drawn)[FoodCell(rx, ry) := FoodGlyph], FoodCell(rx, ry))
      else
        Outcome(true, pushed[..|pushed| - 1], drawn[pushed[|pushed| - 1] := Background], food)
  }

  /**
   * A move keeps the round's invariant: the body stays non-empty, at most
   * 255 cells long, and below the status row, and so does the food.
   */
  lemma MoveKeepsPlaying(body: seq<Word>, screen: seq<Byte>, food: Word, dx: Byte, dy: Byte, rx: nat, ry: nat)
    requires body != [] && |body| <= MaxLen && AllPlayable(body) && |screen| == Cells && Playable(food)
    ensures var o := Move(body, screen, food, dx, dy, rx, ry);
      o.body != [] && |o.body| <= MaxLen && AllPlayable(o.body) && Playable(o.food)
  {
    var next := NextHead(body[0], dx, dy);
    if next.Some? {
      PushedPlayable(body, next.value);
      SlideKeepsLength(body, next.value);
    }
  }

  /**
   * The snake dies exactly when the step leaves the board or enters the
   * status row; running into its own body is never checked. A fatal move
   * changes nothing: body, screen (score included) and food stay as they were.
   */
  lemma MoveDies(body: seq<Word>, screen: seq<Byte>, food: Word, dx: Byte, dy: Byte, rx: nat, ry: nat)
    requires body != [] && AllPlayable(body) && |screen| == Cells
    ensures var o := Move(body, screen, food, dx, dy, rx, ry);
      (o.alive <==> NextHead(body[0], dx, dy).Some?) &&
      (!o.alive ==> o.body == body && o.screen == screen && o.food == food)
  {
  }

  /**
   * A surviving move onto the food: the new head leads (unless the ring is
   * full), the tail stays, the body grows by one (unless the ring is full),
   * the score field is incremented, and new food is placed and drawn. No
   * other cell changes; in particular the old tail's cell is not cleared.
   */
  lemma MoveEats(body: seq<Word>, screen: seq<Byte>, food: Word, dx: Byte, dy: Byte, rx: nat, ry: nat)
    requires 1 <= |body| <= MaxLen && AllPlayable(body) && |screen| == Cells
    requires NextHead(body[0], dx, dy) == Some(food)
    ensures var o := Move(body, screen, food, dx, dy, rx, ry);
      o.alive &&
      |o.body| == (if |body| < MaxLen then |body| + 1 else |body|) &&
      (|body| < MaxLen ==> o.body == [food] + body) &&
      (|body| == MaxLen ==> o.body == body) &&
      o.body[|o.body| - 1] == body[|body| - 1] &&
      o.screen[ScoreAt..ScoreAt + Digits] == Incremented(screen[ScoreAt..ScoreAt + Digits]) &&
      o.food == FoodCell(rx, ry) && o.screen[o.food] == FoodGlyph &&
      (FoodCell(rx, ry) != food ==> o.screen[food] == SnakeGlyph) &&
      (forall k :: 0 <= k < Cells && k != food && k != FoodCell(rx, ry) && !(ScoreAt <= k < ScoreAt + Digits) ==>
        o.screen[k] == screen[k]) &&
      (var t := body[|body| - 1]; t != food && t != FoodCell(rx, ry) ==> o.screen[t] == screen[t])
  {
    var drawn := screen[food := SnakeGlyph];
    EatGrows(body, food);
    assert drawn[ScoreAt..ScoreAt + Digits] == screen[ScoreAt..ScoreAt + Digits];
    forall k | 0 <= k < Cells && !(ScoreAt <= k < ScoreAt + Digits)
      ensures ScoreAdded(drawn)[k] == drawn[k]
    {
    }
    assert Playable(body[|body| - 1]);
  }

  /**
   * A surviving move elsewhere: the new head leads (unless the ring is
   * full), the length stays (a full ring shrinks by one), the old back cell
   * is blanked, and the score and the food stay.
   */
  lemma MoveSlides(body: seq<Word>, screen: seq<Byte>, food: Word, dx: Byte, dy: Byte, rx: nat, ry: nat)
    requires 1 <= |body| <= MaxLen && AllPlayable(body) && |screen| == Cells
    requires NextHead(body[0], dx, dy).Some? && NextHead(body[0], dx, dy).value != food
    ensures var o, cell := Move(body, screen, food, dx, dy, rx, ry), NextHead(body[0], dx, dy).value;
      o.alive &&
      |o.body| == (if |body| < MaxLen then |body| else |body| - 1) &&
      (|body| < MaxLen ==> o.body == [cell] + body[..|body| - 1]) &&
      (|body| == MaxLen ==> o.body == body[..|body| - 1]) &&
      o.screen[body[|body| - 1]] == Background &&
      (cell != body[|body| - 1] ==> o.screen[cell] == SnakeGlyph) &&
      o.screen[ScoreAt..ScoreAt + Digits] == screen[ScoreAt..ScoreAt + Digits] &&
      (forall k :: 0 <= k < Cells && k != cell && k != body[|body| - 1] ==> o.screen[k] == screen[k]) &&
      o.food == food
  {
    var cell := NextHead(body[0], dx, dy).value;
    SlideKeepsLength(body, cell);
    assert Playable(body[|body| - 1]);
  }

  /** `snake_t`: the heading deltas and the body deque, head first. */
  class Snake {
    var dx: Byte
    var dy: Byte
    const body: Deque

    /** The snake in zero-initialised static storage. */
    constructor ()
      ensures dx == 0 && dy == 0
      ensures fresh(body) && fresh(body.buffer) && body.Valid() && body.head == 0 && body.tail == 0
    {
      dx, dy := 0, 0;
      body := new Deque();
    }

    /** `snake_init`: heading right, one body cell at column W/3 of row H/2. */
    method Init()
      requires body.Valid()
      modifies this, body, body.buffer
      ensures body.Valid()
      ensures dx == 1 && dy == 0 && ValidHeading(dx, dy)
      ensures body.Contents() == [Index(W / 3, H / 2)] && body.head == 1 && body.tail == 0xFF
      ensures body.buffer[..] == old(body.buffer[..])[0 := Index(W / 3, H / 2)]
    {
      dx := 1;
      dy := 0;
      body.Init();
      body.PushFront(Index(W / 3, H / 2));
    }

    /** `snake_input` with the joystick reading `joyX`, `joyY` (each -1, 0 or 1). */
    method Input(joyX: int, joyY: int)
      modifies this
      ensures (dx, dy) == Steer(old(dx), old(dy), joyX, joyY)
    {
      if dx == 0 {
        if joyX == -1 {
          dx := Minus1;
          dy := 0;
        } else if joyX == 1 {
          dx := 1;
          dy := 0;
        }
      } else if dy == 0 {
        if joyY == -1 {
          dy := Minus1;
          dx := 0;
        } else if joyY == 1 {
          dy := 1;
          dx := 0;
        }
      }
    }
  }

  /** The game's global state: the screen, the food cell and the snake. */
  class Board {
    const screen: array<Byte>
    var food: Word
    const snake: Snake

    ghost predicate Valid()
      reads this, snake
    {
      screen.Length == Cells && snake.body.Valid()
    }

    /**
     * The invariant of a round in play: a valid heading, a non-empty body
     * whose cells all lie below the status row, and food below it too.
     */
    ghost predicate Playing()
      reads this, snake, snake.body, snake.body.buffer
    {
      Valid() && ValidHeading(snake.dx, snake.dy) &&
      snake.body.Contents() != [] && AllPlayable(snake.body.Contents()) &&
      Playable(food)
    }

    /** The state at program start: zero-initialised globals and a screen. */
    constructor ()
      ensures Valid() && fresh(screen) && fresh(snake) && fresh(snake.body) && fresh(snake.body.buffer)
      ensures food == 0 && snake.dx == 0 && snake.dy == 0
      ensures snake.body.Valid() && snake.body.head == 0 && snake.body.tail == 0 && |snake.body.Contents()| == MaxLen
    {
      screen := new Byte[Cells];
      food := 0;
      snake := new Snake();
    }

    /** `food_move`: place the food at the cell picked from `rx`, `ry` and draw it. */
    method FoodMove(rx: nat, ry: nat)
      requires Valid()
      modifies this, screen
      ensures Valid()
      ensures food == FoodCell(rx, ry)
      ensures screen[..] == old(screen[..])[food := FoodGlyph]
    {
      food := Index(rx % W, 1 + ry % (H - 1));
      screen[food] := FoodGlyph;
    }

    /**
     * `snake_move`, with `rx`, `ry` the `rand()` results a food placement
     * would use: the step that `Move` specifies, done in place.
     */
    method SnakeMove(rx: nat, ry: nat) returns (alive: bool)
      requires Playing()
      modifies this, screen, snake.body, snake.body.buffer
      ensures Playing()
      ensures snake.dx == old(snake.dx) && snake.dy == old(snake.dy)
      ensures Outcome(alive, snake.body.Contents(), screen[..], food) ==
        Move(old(snake.body.Contents()), old(screen[..]), old(food), snake.dx, snake.dy, rx, ry)
      ensures !alive ==> unchanged(snake.body) && snake.body.buffer[..] == old(snake.body.buffer[..])
      ensures alive && !old(snake.body.IsFull()) ==> snake.body.head == Wrap(old(snake.body.head) + 1)
    {
      var next := NextHead(snake.body.Front(), snake.dx, snake.dy);
      if next.None? {
        return false;
      }
      Advance(next.value, rx, ry);
      alive := true;
    }

    /**
     * The rest of `snake_move` once the step to `cell` is accepted: push the
     * new head and draw it, then either eat or slide.
     */
    method Advance(cell: Word, rx: nat, ry: nat)
      requires Playing() && NextHead(snake.body.Front(), snake.dx, snake.dy) == Some(cell)
      modifies this, screen, snake.body, snake.body.buffer
      ensures Playing()
      ensures snake.dx == old(snake.dx) && snake.dy == old(snake.dy)
      ensures Outcome(true, snake.body.Contents(), screen[..], food) ==
        Move(old(snake.body.Contents()), old(screen[..]), old(food), snake.dx, snake.dy, rx, ry)
      ensures !old(snake.body.IsFull()) ==> snake.body.head == Wrap(old(snake.body.head) + 1)
    {
      ghost var body, before, food0 := snake.body.Contents(), screen[..], food;
      ghost var o := Move(body, before, food0, snake.dx, snake.dy, rx, ry);
      snake.body.PushFront(cell);
      assert snake.body.Contents() == Pushed(body, cell);
      screen[cell] := SnakeGlyph;
      ghost var drawn := screen[..];
      assert drawn == before[cell := SnakeGlyph];
      if cell == food {
        assert o.body == Pushed(body, cell) && o.screen == ScoreAdded(drawn)[FoodCell(rx, ry) := FoodGlyph] && o.food == FoodCell(rx, ry);
        Eat(rx, ry);
      } else {
        SlideKeepsLength(body, cell);
        assert o.body == Pushed(body, cell)[..|Pushed(body, cell)| - 1] && o.screen == drawn[body[|body| - 1] := Background] && o.food == food;
        Slide();
      }
      assert snake.body.Contents() == o.body && screen[..] == o.screen && food == o.food;
      MoveKeepsPlaying(body, before, food0, snake.dx, snake.dy, rx, ry);
    }

    /** The food branch of `snake_move`: count the point, then place new food. */
    method Eat(rx: nat, ry: nat)
      requires Valid()
      modifies this, screen
      ensures Valid()
      ensures food == FoodCell(rx, ry)
      ensures screen[..] == ScoreAdded(old(screen[..]))[food := FoodGlyph]
    {
      ScoreAdd(screen);
      FoodMove(rx, ry);
    }

    /** The other branch of `snake_move`: pop the back cell of the body and blank it. */
    method Slide()
      requires Valid() && snake.body.Contents() != []
      requires snake.body.Contents()[|snake.body.Contents()| - 1] < Cells
      modifies screen, snake.body
      ensures Valid() && snake.body.head == old(snake.body.head)
      ensures var c := old(snake.body.Contents());
        snake.body.Contents() == c[..|c| - 1] && screen[..] == old(screen[..])[c[|c| - 1] := Background]
    {
      var vacated := snake.body.PopBack();
      screen[vacated] := Background;
    }

    /** The set-up at the start of each round in `main`: clear the board, set up the snake, place the food. */
    method NewRound(rx: nat, ry: nat)
      requires Valid()
      modifies this, screen, snake, snake.body, snake.body.buffer
      ensures Playing()
      ensures snake.dx == 1 && snake.dy == 0 && snake.body.Contents() == [Index(W / 3, H / 2)]
      ensures food == FoodCell(rx, ry)
      ensures forall k :: 0 <= k < W ==> screen[k] == old(screen[k])
      ensures forall k :: W <= k < Cells ==> screen[k] == if k == food then FoodGlyph else Space
    {
      ClsBoard(screen);
      snake.Init();
      FoodMove(rx, ry);
    }

    /** One pass of the game loop: read the joystick into the heading, then move. */
    method Tick(joyX: int, joyY: int, rx: nat, ry: nat) returns (alive: bool)
      requires Playing()
      modifies this, screen, snake, snake.body, snake.body.buffer
      ensures Playing()
      ensures (snake.dx, snake.dy) == Steer(old(snake.dx), old(snake.dy), joyX, joyY)
      ensures alive == NextHead(old(snake.body.Contents())[0], snake.dx, snake.dy).Some?
      ensures Outcome(alive, snake.body.Contents(), screen[..], food) ==
        Move(old(snake.body.Contents()), old(screen[..]), old(food), snake.dx, snake.dy, rx, ry)
    {
      snake.Input(joyX, joyY);
      alive := SnakeMove(rx, ry);
    }
  }
}
