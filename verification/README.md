# Snake for the C64: a verified model of its game core

This project models the game logic of a small snake game for the
Commodore 64, in `src/main.c`. The game runs on the 40x25 character screen
at 0x0400. Row 0 is a status line holding a five-digit score counter and a
high-score slot, and rows 1..24 are the board. The snake's body is a
double-ended queue (`deque_t`) of cell numbers in a ring of 256 16-bit slots
with two byte cursors. Each tick reads the joystick into the heading and
moves the snake one cell. The snake dies at the board's edge or on entering
the status row. On the food it grows, the score is incremented and new food
is placed; elsewhere the tail cell is blanked.

The model has four modules:

- `Grid` (`grid.dfy`): bytes and 16-bit words, the board size, and the
  row-major cell codec `index`/`undex` with its two round trips.
- `Deques` (`deque.dfy`): the ring deque as a class over a 256-slot array.
  - Every operation is proved against `Contents()`, the live elements front
    first, computed from the buffer and the cursors by `Live`.
  - Beside the class are the source's own cursor expressions as C evaluates
    them (see Findings).
- `Screen` (`screen.dfy`): the screen as an array of screen codes, and the
  routines that write it in place.
  - `score_add` is a decimal counter on the five digit cells; lemmas show it
    counts modulo 100000.
  - `score_reset`, `cls_board`, the screen plane of `cls`, and `putsat`.
- `Game` (`game.dfy`): the heading rule `snake_input`, the step and wall
  test, food placement, and `snake_move`.
  - `snake_move` is specified on values by `Move`, with lemmas for its death,
    eat and slide cases and for the round's invariant.
  - It is then done in place on a `Board` object that holds the source's
    globals (`screen`, `food`, `snake`).

Random numbers and joystick readings are parameters. The two `rand()`
results of `food_move` are `rx`, `ry`, and the joystick axes are `joyX`,
`joyY`.

## Model

| member | source | states |
|---|---|---|
| Grid.Index | src/main.c:28-30 | for a column below 40 the cell number's remainder and quotient by 40 are the column and row; on the board (row 1..24) it is a playable cell below 1000 |
| Grid.Undex | src/main.c:32-35 | the column is below 40; below 256 rows the row and column re-encode to the cell number (the row is truncated to a byte); a screen cell's row is below 25 |
| Grid.UndexIndex | src/main.c:28-35 | decoding an encoded (x, y) with x < 40 gives back (x, y), for every row byte |
| Grid.IndexUndex | src/main.c:28-35 | encoding a decoded cell number below 1000 gives back that cell number |
| Deques.Count | src/main.c:37-54 | the live count (head - tail - 1) mod 256 is at most 255; it is 0 exactly when head is tail+1 mod 256, and 255 exactly when the cursors meet |
| Deques.LivePushFront | src/main.c:70-75 | writing slot head and advancing head adds exactly one element, in front, and keeps the others in order |
| Deques.LivePushBack | src/main.c:77-82 | writing slot tail and retreating tail adds exactly one element, at the back, and keeps the others in order |
| Deques.LivePopFront | src/main.c:84-89 | retreating head removes exactly the front element, which sits in the slot head then names; the rest keep their order |
| Deques.LivePopBack | src/main.c:91-96 | advancing tail removes exactly the back element, which sits in the slot tail then names; the rest keep their order |
| Deques.Deque.constructor | src/main.c:37-41 | a deque in zero-initialised storage has both cursors 0 and so reads as full (255 elements) |
| Deques.Deque.Init | src/main.c:43-46 | after `deque_init` head is 0, tail is 255 and the deque is empty |
| Deques.Deque.IsEmpty | src/main.c:48-50 | true exactly when the deque holds no element (with tail+1 taken mod 256) |
| Deques.Deque.IsFull | src/main.c:52-54 | true exactly when the deque holds 255 elements |
| Deques.Deque.Front | src/main.c:56-61 | the first element, or the sentinel 0 when empty |
| Deques.Deque.Back | src/main.c:63-68 | the last element, or the sentinel 0 when empty |
| Deques.Deque.PushFront | src/main.c:70-75 | on a full deque, cursors and buffer are unchanged; otherwise the value is stored in slot head, head advances mod 256, tail stays, and the contents become [v] + old contents |
| Deques.Deque.PushBack | src/main.c:77-82 | on a full deque, cursors and buffer are unchanged; otherwise the value is stored in slot tail, tail retreats mod 256, head stays, and the contents become old contents + [v] |
| Deques.Deque.PopFront | src/main.c:84-89 | on an empty deque, returns 0 and changes nothing; otherwise returns the first element, head retreats mod 256 and the contents lose their first element |
| Deques.Deque.PopBack | src/main.c:91-96 | on an empty deque, returns 0 and changes nothing; otherwise returns the last element, tail advances mod 256 and the contents lose their last element |
| Deques.PushPopFront | src/main.c:70-89 | on a non-full deque, push_front(v) then pop_front() returns v and restores head, tail and contents (and front() is v in between) |
| Deques.PushPopBack | src/main.c:77-96 | on a non-full deque, push_back(v) then pop_back() returns v and restores head, tail and contents (and back() is v in between) |
| Deques.IsEmptyAsWritten | src/main.c:48-50 | the empty test as C evaluates it implies an empty ring, and agrees with it whenever tail is not 255 |
| Deques.PopFrontAsWritten | src/main.c:84-89 | pop_front with the empty test as C evaluates it (used by the lemma below) |
| Deques.PopFrontAfterInitAsWritten | src/main.c:43-50 | right after `deque_init` the ring is empty, yet pop_front as written returns slot 255 and leaves head == tail, so the ring then reads as full |
| Deques.FrontAsWritten | src/main.c:56-61 | the slot read by `deque_front` as written lies outside the buffer exactly when head is 0 |
| Deques.BackAsWritten | src/main.c:63-68 | the slot read by `deque_back` as written lies outside the buffer exactly when tail is 255 |
| Deques.FrontAsWrittenAtWrappedHead | src/main.c:56-61 | with head 0 and elements stored, the front element is in slot 255 but `deque_front` as written reads slot -1; with head non-zero it agrees with the front element |
| Deques.BackAsWrittenAtWrappedTail | src/main.c:63-68 | with tail 255 and elements stored, the back element is in slot 0 but `deque_back` as written reads slot 256; with tail other than 255 it agrees with the back element |
| Screen.Incremented | src/main.c:109-120 | the digit field after `score_add` has the same length |
| Screen.ValueBound | src/main.c:109-120 | an n-digit decimal field stands for a value below 10^n |
| Screen.IncrementedValue | src/main.c:109-120 | on decimal digits, `score_add` keeps them digits and adds one to their value modulo 10^n (so the five-digit score counts modulo 100000) |
| Screen.IncrementedCarry | src/main.c:111-118 | trailing nines become '0' and the carry goes on into the digits before them |
| Screen.ScoreAdded | src/main.c:109-120 | the screen after `score_add` has the same size and its cells 8..12 are the incremented digit field |
| Screen.ScoreAddedCells | src/main.c:109-120 | cell by cell, when the carry stops at cell i: the nines after it become '0', cell i is incremented as a byte, and every other cell (the rest of the screen included) is unchanged |
| Screen.ScoreAdd | src/main.c:109-120 | the right-to-left carry loop with its early exit leaves exactly the screen `ScoreAdded` describes |
| Screen.AfterScoreReset | src/main.c:122-128 | the high-score slot 22..26 receives the old score whatever it held, the score cells 8..12 become '0' (value 0), and no other cell changes |
| Screen.ScoreReset | src/main.c:122-128 | the copy loop leaves exactly the screen `AfterScoreReset` describes |
| Screen.ClsBoard | src/main.c:203-208 | every cell from 40 to 999 becomes a space and the status row is untouched |
| Screen.Cls | src/main.c:195-201 | every screen cell becomes a space |
| Screen.PutsAt | src/main.c:98-103 | the text (before its terminating zero) replaces the cells from index(x, y) on, and every other cell is unchanged |
| Game.Steer | src/main.c:150-168 | a valid heading stays valid (one non-zero delta, each 0, 1 or 255); a moving axis is never negated; an accepted deflection becomes the signed delta on the other axis; with no perpendicular deflection the heading is unchanged |
| Game.Snake.Input | src/main.c:150-168 | `snake_input` sets the heading to `Steer` of the old heading and the joystick |
| Game.NextHead | src/main.c:172-179 | a step that survives lands on a playable cell (row 1..24) |
| Game.NextHeadSigned | src/main.c:172-181 | for a cell on the screen and a valid heading, the byte arithmetic is the signed step: the snake dies exactly when the neighbouring cell is off the board or in row 0, and otherwise moves onto it |
| Game.LeftWall | src/main.c:174-179 | stepping left from column 0 is fatal (the column byte wraps to 255) |
| Game.TopWall | src/main.c:175-179 | stepping up from row 1 is fatal |
| Game.FoodCell | src/main.c:130-135 | the food cell lies in [40, 1000), at column rx mod 40 and row 1 + ry mod 24 |
| Game.FoodCellCovers | src/main.c:133 | every playable cell can be picked for the food |
| Game.Board.FoodMove | src/main.c:130-135 | `food` becomes `FoodCell(rx, ry)` and only that screen cell changes, to the food glyph |
| Game.EatGrows | src/main.c:182-187 | pushing the new head gives [cell] + body, so the length grows by one and the tail is kept; a full ring drops the push and the body is unchanged |
| Game.SlideKeepsLength | src/main.c:182-190 | push then pop: the popped cell is the old tail, the length stays, and a full ring shrinks by one |
| Game.PushedPlayable | src/main.c:182-190 | pushing a playable cell, and then dropping the back, keeps every body cell playable |
| Game.Move | src/main.c:170-193 | one `snake_move` on values keeps the screen's size |
| Game.MoveDies | src/main.c:172-179 | the snake dies exactly when the step is rejected (never for running into itself), and a fatal move leaves body, screen, score and food untouched |
| Game.MoveEats | src/main.c:181-187 | on the food: the body becomes [new head] + old body (when not full) or stays exactly as it was (when full), so the tail stays and the length grows by one unless full; the score field is incremented, and new food is placed and drawn; the new head is drawn unless the new food covers it; every other cell outside the score field keeps its value, so the old tail's cell is not cleared |
| Game.MoveSlides | src/main.c:181-190 | elsewhere: the body becomes the new head followed by all but the old tail (when not full), the length stays, the old back cell is blanked, the new head is drawn unless it is that back cell, and score and food stay; a full ring loses its old tail instead of gaining the head; every other screen cell keeps its value |
| Game.MoveKeepsPlaying | src/main.c:170-193 | a move keeps the body non-empty, at most 255 long and below the status row, and the food below it |
| Game.Snake.Init | src/main.c:143-148 | heading right, and the body is the single cell index(13, 12), with head 1 and tail 255 |
| Game.Board.SnakeMove | src/main.c:170-193 | the in-place `snake_move` leaves exactly the alive flag, body, screen and food that `Move` gives, keeps the round's invariant and the heading, and on death changes nothing |
| Game.Board.Advance | src/main.c:181-192 | once the step to `cell` is accepted: push, draw, then eat or slide leave exactly the body, screen and food `Move` gives, keep the round's invariant and the heading, and advance head by one unless the ring was full |
| Game.Board.Eat | src/main.c:185-187 | the food branch: the screen's score is incremented and the new food drawn |
| Game.Board.Slide | src/main.c:188-190 | the other branch: the back cell is popped and blanked, head unchanged |
| Game.Snake.constructor | src/main.c:137-141 | the global `snake` starts zeroed: heading (0, 0) and a deque with both cursors 0 |
| Game.Board.constructor | src/main.c:23-25 | the globals start zeroed: food 0, heading (0, 0), and the snake's deque cursors both 0, so its ring reads as full (255 elements) |
| Game.Board.NewRound | src/main.c:233-235 | `cls_board`, `snake_init`, `food_move`: a round in play, the snake at its start, the food at `FoodCell(rx, ry)`, the board blank but for the food, the status row untouched |
| Game.Board.Tick | src/main.c:238-241 | one pass of the game loop: the heading becomes `Steer` of the joystick, and the snake lives exactly when the step from its front cell is accepted; the alive flag, body, screen and food it leaves are those `Move` gives for the new heading |

## Left out

- The `main` loop itself, `wait_fire`, `joy_poll`, `delay` and `vic_waitFrame`, and the VIC border and background colour writes (src/main.c:210-252). These are hardware polling and frame timing. One pass of the game loop is `Game.Board.Tick`, and the set-up of a round is `Game.Board.NewRound`.
- The colour plane written by `cls` (colour RAM at 0xD800); `Screen.Cls` writes the screen plane only.
- `rand()`: its two results are the parameters `rx` and `ry`.
- The joystick registers `joyx[0]` and `joyy[0]`: they are the parameters `joyX` and `joyY`.
- The texts `msg_status`, `msg_prompt` and `msg_died`, `status_init`, and the centring arithmetic in `main`. `Screen.PutsAt` copies any text of fewer than 256 characters without a zero byte.
- Screen.PutsAt: requires the text to fit on the screen and to be shorter than 256 characters. The source checks no bounds, and its byte loop counter would never reach a longer length.
- Game.Board.SnakeMove, Game.Board.Advance and Game.Board.Tick: step from the front cell of the deque with its cursor expressions taken modulo 256 (the corrected `Deques.Deque`), not the expressions as written. As written, `deque_front` reads outside the buffer once `head` wraps to 0 (see Findings).
- The snake's screen is a separate array from the deque's buffer. The source's memory layout, which decides what an out-of-bounds slot read returns, is not modelled.

## Findings

| source | as written | input that shows it | evidently intended | confidence | as-written member | corrected member |
|---|---|---|---|---|---|---|
| src/main.c:49 | `head == tail + 1` is computed in `int`, so `tail + 1` never wraps | the state right after `deque_init` (head 0, tail 255) is empty but does not read as empty; `deque_pop_front` then returns slot 255 and leaves head == tail, so the ring reads as full | `tail + 1` taken modulo 256 | high; not executed | Deques.PopFrontAfterInitAsWritten | Deques.Deque.IsEmpty |
| src/main.c:60 | `buffer[head - 1]` is indexed in `int` | head 0 with elements stored (tail not 255). `snake_init` leaves head 1 and each surviving move advances it, so it reaches 0 after 255 surviving moves. Then slot -1 is read, outside the buffer, instead of slot 255 | slot (head - 1) modulo 256 | high; not executed | Deques.FrontAsWrittenAtWrappedHead | Deques.Deque.Front |
| src/main.c:67 | `buffer[tail + 1]` is indexed in `int` | tail 255 with elements stored, as after `deque_init` and one `deque_push_front`: slot 256 is read, outside the buffer, instead of slot 0 | slot (tail + 1) modulo 256 | high; not executed | Deques.BackAsWrittenAtWrappedTail | Deques.Deque.Back |
