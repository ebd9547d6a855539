/**
 * Machine values of the 6502 target and the 40x25 character grid of the
 * C64 text screen: the row-major cell codec `index` / `undex`.
 */
module Grid {

  /** An unsigned 8-bit value (`u8`). */
  type Byte = b: int | 0 <= b < 0x100

  /** An unsigned 16-bit value (`u16`). */
  type Word = w: int | 0 <= w < 0x1_0000

  datatype Option<T> = None | Some(value: T)

  /** Board width and height in character cells. */
  const W: int := 40
  const H: int := 25

  /** Number of cells on the screen. */
  const Cells: int := W * H

  /** The byte that stores the step -1 (the source assigns -1 to a `u8`). */
  const Minus1: Byte := 0xFF

  /** The step a byte stands for when read as two's complement. */
  function Signed(b: Byte): (s: int)
    ensures -0x80 <= s < 0x80
    ensures (s - b) % 0x100 == 0
  {
    if b < 0x80 then b else b - 0x100
  }

  /** A cell below the status row (row 0), i.e. one the snake and the food may occupy. */
  predicate Playable(cell: int) {
    W <= cell < Cells
  }

  /** `index`: the row-major cell number of column `x`, row `y`. */
  function Index(x: Byte, y: Byte): (r: Word)
    ensures x < W ==> r % W == x && r / W == y
    ensures x < W && y < H ==> r < Cells
    ensures x < W && 1 <= y < H ==> Playable(r)
  {
    y * W + x
  }

  /**
   * `undex`: column and row of a cell number. The row is stored into a
   * `u8`, so it is truncated to 8 bits.
   */
  function Undex(a: Word): (p: (Byte, Byte))
    ensures p.0 < W
    ensures a < 0x100 * W ==> p.1 * W + p.0 == a
    ensures a < Cells ==> p.1 < H
  {
    (a % W, (a / W) % 0x100)
  }

  /** Decoding an encoded cell gives back its column and row, for every row byte. */
  lemma UndexIndex(x: Byte, y: Byte)
    requires x < W
    ensures Undex(Index(x, y)) == (x, y)
  {
    var r := Index(x, y);
    assert r % W == x && r / W == y;
  }

  /** Encoding a decoded cell gives back the cell, for every cell of the screen. */
  lemma IndexUndex(a: Word)
    requires a < Cells
    ensures Index(Undex(a).0, Undex(a).1) == a
  {
    var p := Undex(a);
    assert p.1 * W + p.0 == a;
  }
}
