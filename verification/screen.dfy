/**
 * The 1000-cell text screen (screen codes, one byte per cell) and the
 * routines that write it in place: the decimal score counter in the status
 * row, the copy into the high-score slot, clearing, and placing a text.
 */
module Screen {
  import opened Grid

  /** Screen codes the game draws with (`SC_BG`, `SC_SNAKE`, `SC_FOOD`). */
  const Background: Byte := 32
  const SnakeGlyph: Byte := 81
  const FoodGlyph: Byte := 83

  /** The space character the clearing loops write (the same code as `SC_BG`). */
  const Space: Byte := 32

  /** The codes of the characters '0' and '9'. */
  const Zero: Byte := 48
  const Nine: Byte := 57

  /**
   * The score counter is the 5 digits in cells 8..12 of the status row; the
   * high-score slot is cells 22..26. (The status text draws a sixth, fixed
   * '0' after each, in cells 13 and 27.)
   */
  const ScoreAt: int := 8
  const HighAt: int := 22
  const Digits: int := 5

  predicate IsDigit(c: Byte) {
    Zero <= c <= Nine
  }

  predicate AllDigits(d: seq<Byte>) {
    forall k :: 0 <= k < |d| ==> IsDigit(d[k])
  }

  /** The number a digit field stands for, most significant digit first. */
  function Value(d: seq<Byte>): int {
    if d == [] then 0 else Value(d[..|d| - 1]) * 10 + (d[|d| - 1] - Zero)
  }

  function Pow10(n: nat): (p: nat)
    ensures p >= 1
  {
    if n == 0 then 1 else 10 * Pow10(n - 1)
  }

  /** A field of `n` '0' characters. */
  function Zeros(n: nat): (z: seq<Byte>)
    ensures |z| == n && forall k :: 0 <= k < n ==> z[k] == Zero
  {
    seq(n, _ => Zero)
  }

  /**
   * The digit field after `score_add`: from the right, each '9' becomes '0'
   * and carries on; the first other character is incremented (as a byte) and
   * stops the carry.
   */
  function Incremented(d: seq<Byte>): (r: seq<Byte>)
    ensures |r| == |d|
  {
    if d == [] then []
    else if d[|d| - 1] == Nine then Incremented(d[..|d| - 1]) + [Zero]
    else d[..|d| - 1] + [(d[|d| - 1] as int + 1) % 0x100]
  }

  lemma {:induction false} ValueBound(d: seq<Byte>)
    requires AllDigits(d)
    ensures 0 <= Value(d) < Pow10(|d|)
  {
    if d != [] {
      ValueBound(d[..|d| - 1]);
    }
  }

  /**
   * On a field of decimal digits, `score_add` is a decimal counter modulo
   * 10^n: the digits stay digits and their value goes up by one, wrapping
   * to 0 from all nines.
   */
  lemma {:induction false} IncrementedValue(d: seq<Byte>)
    requires AllDigits(d)
    ensures AllDigits(Incremented(d))
    ensures Value(Incremented(d)) == (Value(d) + 1) % Pow10(|d|)
  {
    if d == [] {
      return;
    }
    var p, last := d[..|d| - 1], d[|d| - 1];
    var r := Incremented(d);
    var m := Pow10(|p|);
    assert AllDigits(p);
    ValueBound(p);
    assert Pow10(|d|) == 10 * m;
    if last == Nine {
      IncrementedValue(p);
      assert r[..|r| - 1] == Incremented(p) && r[|r| - 1] == Zero;
      assert Value(r) == Value(Incremented(p)) * 10;
      if Value(p) + 1 < m {
        ModSmall(Value(p) + 1, m);
        ModSmall(Value(d) + 1, 10 * m);
      } else {
        assert Value(p) + 1 == m && Value(d) + 1 == 10 * m;
        ModSelf(m);
        ModSelf(10 * m);
      }
    } else {
      assert r[..|r| - 1] == p;
      assert Value(r) == Value(d) + 1 < 10 * m;
      ModSmall(Value(d) + 1, 10 * m);
    }
  }

  lemma ModSmall(a: int, m: int)
    requires 0 <= a < m
    ensures a % m == a
  {
  }

  lemma ModSelf(m: int)
    requires m > 0
    ensures m % m == 0
  {
  }

  /** Incrementing a field that ends in all nines turns them to zeros and increments the rest. */
  lemma {:induction false} IncrementedCarry(d: seq<Byte>, j: nat)
    requires j <= |d|
    requires forall k :: j <= k < |d| ==> d[k] == Nine
    ensures Incremented(d) == Incremented(d[..j]) + Zeros(|d| - j)
    decreases |d|
  {
    if j < |d| {
      var p := d[..|d| - 1];
      assert p[..j] == d[..j];
      IncrementedCarry(p, j);
    } else {
      assert d[..j] == d;
    }
  }

  /** The whole screen after `score_add`: only the five score cells change. */
  function ScoreAdded(s: seq<Byte>): (r: seq<Byte>)
    requires |s| == Cells
    ensures |r| == Cells
    ensures r[ScoreAt..ScoreAt + Digits] == Incremented(s[ScoreAt..ScoreAt + Digits])
  {
    s[..ScoreAt] + Incremented(s[ScoreAt..ScoreAt + Digits]) + s[ScoreAt + Digits..]
  }

  /**
   * Cell by cell, `ScoreAdded` when the carry stops at cell `i`: the cells
   * after it up to the end of the field were nines and become '0', cell `i`
   * (when it lies in the field) is incremented, and every other cell stays.
   */
  lemma {:induction false} ScoreAddedCells(s: seq<Byte>, i: int)
    requires |s| == Cells && ScoreAt - 1 <= i < ScoreAt + Digits
    requires forall k :: i < k < ScoreAt + Digits ==> s[k] == Nine
    requires i >= ScoreAt ==> s[i] != Nine
    ensures forall k :: 0 <= k < Cells ==>
      ScoreAdded(s)[k] == if i < k < ScoreAt + Digits then Zero
                          else if k == i && i >= ScoreAt then (s[k] as int + 1) % 0x100
                          else s[k]
  {
    var d := s[ScoreAt..ScoreAt + Digits];
    var j := i - ScoreAt + 1;
    IncrementedCarry(d, j);
    if j > 0 {
      assert d[..j][..j - 1] == d[..j - 1];
      assert Incremented(d[..j]) == d[..j - 1] + [(s[i] as int + 1) % 0x100];
    }
  }

  /** `score_add`: increment the score digits in place, carrying right to left. */
  method ScoreAdd(screen: array<Byte>)
    requires screen.Length == Cells
    modifies screen
    ensures screen[..] == ScoreAdded(old(screen[..]))
  {
    ghost var s := screen[..];
    var i := ScoreAt + Digits - 1;
    while i >= ScoreAt
      invariant ScoreAt - 1 <= i < ScoreAt + Digits
      invariant forall k :: 0 <= k < Cells ==> screen[k] == if i < k < ScoreAt + Digits then Zero else s[k]
      invariant forall k :: i < k < ScoreAt + Digits ==> s[k] == Nine
    {
      var digit := (screen[i] as int - Zero) % 0x100;
      if digit == 9 {
        screen[i] := Zero;
      } else {
        screen[i] := (Zero as int + digit + 1) % 0x100;
        break;
      }
      i := i - 1;
    }
    ScoreAddedCells(s, i);
  }

  /** The whole screen after `score_reset`. */
  function AfterScoreReset(s: seq<Byte>): (r: seq<Byte>)
    requires |s| == Cells
    ensures |r| == Cells
    ensures r[HighAt..HighAt + Digits] == s[ScoreAt..ScoreAt + Digits]
    ensures r[ScoreAt..ScoreAt + Digits] == Zeros(Digits) && Value(r[ScoreAt..ScoreAt + Digits]) == 0
    ensures forall k :: 0 <= k < Cells && !(ScoreAt <= k < ScoreAt + Digits) && !(HighAt <= k < HighAt + Digits) ==>
      r[k] == s[k]
  {
    var r := s[..ScoreAt] + Zeros(Digits) + s[ScoreAt + Digits..HighAt] + s[ScoreAt..ScoreAt + Digits] + s[HighAt + Digits..];
    assert r[ScoreAt..ScoreAt + Digits] == Zeros(Digits);
    assert Value(Zeros(Digits)) == 0 by {
      assert Zeros(Digits)[..4] == Zeros(4);
      assert Zeros(4)[..3] == Zeros(3);
      assert Zeros(3)[..2] == Zeros(2);
      assert Zeros(2)[..1] == Zeros(1);
      assert Zeros(1)[..0] == [];
    }
    r
  }

  /**
   * `score_reset`: copy the score into the high-score slot, whatever the
   * slot held (there is no comparison), then set the score to zero.
   */
  method ScoreReset(screen: array<Byte>)
    requires screen.Length == Cells
    modifies screen
    ensures screen[..] == AfterScoreReset(old(screen[..]))
  {
    var i := 0;
    while i <= Digits - 1
      invariant 0 <= i <= Digits
      invariant forall k :: 0 <= k < Cells ==>
        screen[k] == if ScoreAt <= k < ScoreAt + i then Zero
                     else if HighAt <= k < HighAt + i then old(screen[k - HighAt + ScoreAt])
                     else old(screen[k])
    {
      screen[HighAt + i] := screen[ScoreAt + i];
      screen[ScoreAt + i] := Zero;
      i := i + 1;
    }
  }

  /** `cls_board`: blank every cell below the status row. */
  method ClsBoard(screen: array<Byte>)
    requires screen.Length == Cells
    modifies screen
    ensures forall k :: 0 <= k < W ==> screen[k] == old(screen[k])
    ensures forall k :: W <= k < Cells ==> screen[k] == Space
  {
    var i := W;
    while i < Cells
      invariant W <= i <= Cells
      invariant forall k :: 0 <= k < W ==> screen[k] == old(screen[k])
      invariant forall k :: W <= k < i ==> screen[k] == Space
    {
      screen[i] := Space;
      i := i + 1;
    }
  }

  /** `cls`, screen plane only: blank every cell. */
  method Cls(screen: array<Byte>)
    requires screen.Length == Cells
    modifies screen
    ensures forall k :: 0 <= k < Cells ==> screen[k] == Space
  {
    var i := 0;
    while i < Cells
      invariant 0 <= i <= Cells
      invariant forall k :: 0 <= k < i ==> screen[k] == Space
    {
      screen[i] := Space;
      i := i + 1;
    }
  }

  /**
   * `putsat`: copy the characters of `msg` (those before its terminating
   * zero byte) into consecutive cells from column `x`, row `y`. The source
   * checks no bounds, so the caller keeps the text on the screen; its loop
   * counter is a byte, so a text of 256 or more characters would never end.
   */
  method PutsAt(screen: array<Byte>, msg: seq<Byte>, x: Byte, y: Byte)
    requires screen.Length == Cells
    requires 0 !in msg && |msg| < 0x100
    requires Index(x, y) + |msg| <= Cells
    modifies screen
    ensures screen[..] == old(screen[..])[..Index(x, y)] + msg + old(screen[..])[Index(x, y) + |msg|..]
  {
    var start := Index(x, y);
    var i := 0;
    while i < |msg|
      invariant 0 <= i <= |msg|
      invariant forall k :: 0 <= k < Cells ==>
        screen[k] == if start <= k < start + i then msg[k - start] else old(screen[k])
    {
      screen[start + i] := msg[i];
      i := i + 1;
    }
    assert screen[..] == old(screen[..])[..start] + msg + old(screen[..])[start + |msg|..];
  }
}
