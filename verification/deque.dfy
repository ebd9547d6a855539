/**
 * `deque_t`: a double-ended queue of cell numbers in a ring of 256 `u16`
 * slots with two byte cursors. `head` is the next free slot at the front,
 * `tail` the next free slot at the back; the live elements sit in the slots
 * strictly between them, front first from slot head-1 down to slot tail+1,
 * every step modulo 256. The ring is full when the cursors meet, so it holds
 * at most 255 elements.
 *
 * The class below does all cursor arithmetic modulo 256. The source does so
 * for its `++`/`--` updates but not for the `tail + 1` of its empty test nor
 * for the slot numbers `head - 1` and `tail + 1` that `deque_front` and
 * `deque_back` read, which C computes after promotion to `int`. Those three
 * expressions are modelled as written by the `...AsWritten` functions at the
 * end of this module, with lemmas that show where they go wrong.
 */
module Deques {
  import opened Grid

  /** Number of slots in the ring; the byte cursors wrap at this value. */
  const Slots: int := 0x100

  /** The largest number of live elements the ring can hold. */
  const MaxLen: int := Slots - 1

  /**
   * A cursor moved by `++` or `--`, or a slot number reduced to a byte: the
   * value modulo 256, for the small overshoots that arise here.
   */
  function Wrap(k: int): (b: Byte)
    requires -Slots <= k < 2 * Slots
    ensures (b - k) % Slots == 0
  {
    if k < 0 then k + Slots else if k >= Slots then k - Slots else k
  }

  /** Number of live elements between the cursors: (head - tail - 1) mod 256. */
  function Count(head: Byte, tail: Byte): (n: nat)
    ensures n <= MaxLen
    ensures n == 0 <==> head == Wrap(tail + 1)
    ensures n == MaxLen <==> head == tail
  {
    Wrap(head - tail - 1)
  }

  /** The live elements of a ring with contents `buf`, front first. */
  ghost function Live(buf: seq<Word>, head: Byte, tail: Byte): seq<Word>
    requires |buf| == Slots
  {
    seq(Count(head, tail), i requires 0 <= i < Count(head, tail) => buf[Wrap(head - 1 - i)])
  }

  /** Writing slot `head` and advancing `head` puts one element in front of the others. */
  lemma LivePushFront(buf: seq<Word>, head: Byte, tail: Byte, v: Word)
    requires |buf| == Slots && Count(head, tail) < MaxLen
    ensures Count(Wrap(head + 1), tail) == Count(head, tail) + 1
    ensures Live(buf[head := v], Wrap(head + 1), tail) == [v] + Live(buf, head, tail)
  {
    var s, t := Live(buf[head := v], Wrap(head + 1), tail), [v] + Live(buf, head, tail);
    forall i | 0 <= i < |s|
      ensures s[i] == t[i]
    {
      if i > 0 {
        assert Wrap(Wrap(head + 1) - 1 - i) == Wrap(head - 1 - (i - 1)) != head;
      } else {
        assert Wrap(Wrap(head + 1) - 1) == head;
      }
    }
  }

  /** Writing slot `tail` and retreating `tail` puts one element behind the others. */
  lemma LivePushBack(buf: seq<Word>, head: Byte, tail: Byte, v: Word)
    requires |buf| == Slots && Count(head, tail) < MaxLen
    ensures Count(head, Wrap(tail - 1)) == Count(head, tail) + 1
    ensures Live(buf[tail := v], head, Wrap(tail - 1)) == Live(buf, head, tail) + [v]
  {
    var n := Count(head, tail);
    var s, t := Live(buf[tail := v], head, Wrap(tail - 1)), Live(buf, head, tail) + [v];
    forall i | 0 <= i < |s|
      ensures s[i] == t[i]
    {
      if i < n {
        assert Wrap(head - 1 - i) != tail;
      } else {
        assert Wrap(head - 1 - i) == tail;
      }
    }
  }

  /** Retreating `head` removes the front element, which sits in the slot `head` then names. */
  lemma LivePopFront(buf: seq<Word>, head: Byte, tail: Byte)
    requires |buf| == Slots && Count(head, tail) > 0
    ensures Count(Wrap(head - 1), tail) == Count(head, tail) - 1
    ensures Live(buf, head, tail)[0] == buf[Wrap(head - 1)]
    ensures Live(buf, Wrap(head - 1), tail) == Live(buf, head, tail)[1..]
  {
    var s, t := Live(buf, Wrap(head - 1), tail), Live(buf, head, tail)[1..];
    forall i | 0 <= i < |s|
      ensures s[i] == t[i]
    {
      assert Wrap(Wrap(head - 1) - 1 - i) == Wrap(head - 1 - (i + 1));
    }
  }

  /** Advancing `tail` removes the back element, which sits in the slot `tail` then names. */
  lemma LivePopBack(buf: seq<Word>, head: Byte, tail: Byte)
    requires |buf| == Slots && Count(head, tail) > 0
    ensures Count(head, Wrap(tail + 1)) == Count(head, tail) - 1
    ensures Live(buf, head, tail)[Count(head, tail) - 1] == buf[Wrap(tail + 1)]
    ensures Live(buf, head, Wrap(tail + 1)) == Live(buf, head, tail)[..Count(head, tail) - 1]
  {
    var n := Count(head, tail);
    assert Wrap(head - 1 - (n - 1)) == Wrap(tail + 1);
  }

  class Deque {
    const buffer: array<Word>
    var head: Byte
    var tail: Byte

    ghost predicate Valid() {
      buffer.Length == Slots
    }

    /** The live elements, front first. */
    ghost function Contents(): seq<Word>
      reads this, buffer
      requires Valid()
    {
      Live(buffer[..], head, tail)
    }

    /** A deque in zero-initialised static storage, before `deque_init`: both cursors 0, so full. */
    constructor ()
      ensures Valid() && fresh(buffer)
      ensures head == 0 && tail == 0 && |Contents()| == MaxLen
    {
      buffer := new Word[Slots];
      head, tail := 0, 0;
    }

    /** `deque_init`: the cursors become adjacent; the slots keep whatever they held. */
    method Init()
      requires Valid()
      modifies this
      ensures Valid()
      ensures head == 0 && tail == 0xFF && Contents() == []
    {
      head := 0x00;
      tail := 0xFF;
    }

    /** `deque_empty`, with `tail + 1` taken modulo 256. */
    function IsEmpty(): (b: bool)
      reads this
      requires Valid()
      ensures b <==> Contents() == []
    {
      head == Wrap(tail + 1)
    }

    /** `deque_full`: the cursors meet once 255 elements are stored. */
    function IsFull(): (b: bool)
      reads this
      requires Valid()
      ensures b <==> |Contents()| == MaxLen
    {
      head == tail
    }

    /** `deque_front`: the front element, or the sentinel 0 when there is none. */
    function Front(): (v: Word)
      reads this, buffer
      requires Valid()
      ensures Contents() == [] ==> v == 0
      ensures Contents() != [] ==> v == Contents()[0]
    {
      if IsEmpty() then 0
      else
        LivePopFront(buffer[..], head, tail);
        buffer[Wrap(head - 1)]
    }

    /** `deque_back`: the back element, or the sentinel 0 when there is none. */
    function Back(): (v: Word)
      reads this, buffer
      requires Valid()
      ensures Contents() == [] ==> v == 0
      ensures Contents() != [] ==> v == Contents()[|Contents()| - 1]
    {
      if IsEmpty() then 0
      else
        LivePopBack(buffer[..], head, tail);
        buffer[Wrap(tail + 1)]
    }

    /** `deque_push_front`: store `v` at the front; a full ring silently drops it. */
    method PushFront(v: Word)
      requires Valid()
      modifies this, buffer
      ensures Valid() && tail == old(tail)
      ensures old(IsFull()) ==> head == old(head) && buffer[..] == old(buffer[..])
      ensures !old(IsFull()) ==>
        head == Wrap(old(head) + 1) && buffer[..] == old(buffer[..])[old(head) := v]
      ensures Contents() == if old(IsFull()) then old(Contents()) else [v] + old(Contents())
    {
      if IsFull() {
        return;
      }
      LivePushFront(buffer[..], head, tail, v);
      buffer[head] := v;
      head := Wrap(head + 1);
    }

    /** `deque_push_back`: store `v` at the back; a full ring silently drops it. */
    method PushBack(v: Word)
      requires Valid()
      modifies this, buffer
      ensures Valid() && head == old(head)
      ensures old(IsFull()) ==> tail == old(tail) && buffer[..] == old(buffer[..])
      ensures !old(IsFull()) ==>
        tail == Wrap(old(tail) - 1) && buffer[..] == old(buffer[..])[old(tail) := v]
      ensures Contents() == if old(IsFull()) then old(Contents()) else old(Contents()) + [v]
    {
      if IsFull() {
        return;
      }
      LivePushBack(buffer[..], head, tail, v);
      buffer[tail] := v;
      tail := Wrap(tail - 1);
    }

    /** `deque_pop_front`: remove and return the front element; 0 and no change when empty. */
    method PopFront() returns (v: Word)
      requires Valid()
      modifies this
      ensures Valid() && tail == old(tail)
      ensures old(Contents()) == [] ==> v == 0 && head == old(head)
      ensures old(Contents()) != [] ==>
        v == old(Contents())[0] && head == Wrap(old(head) - 1) && Contents() == old(Contents())[1..]
    {
      if IsEmpty() {
        return 0;
      }
      LivePopFront(buffer[..], head, tail);
      head := Wrap(head - 1);
      v := buffer[head];
    }

    /** `deque_pop_back`: remove and return the back element; 0 and no change when empty. */
    method PopBack() returns (v: Word)
      requires Valid()
      modifies this
      ensures Valid() && head == old(head)
      ensures old(Contents()) == [] ==> v == 0 && tail == old(tail)
      ensures old(Contents()) != [] ==>
        v == old(Contents())[|old(Contents())| - 1] && tail == Wrap(old(tail) + 1) &&
        Contents() == old(Contents())[..|old(Contents())| - 1]
    {
      if IsEmpty() {
        return 0;
      }
      LivePopBack(buffer[..], head, tail);
      tail := Wrap(tail + 1);
      v := buffer[tail];
    }
  }

  /** Pushing at the front and popping straight away gives back the value and the old state. */
  method PushPopFront(d: Deque, v: Word) returns (r: Word)
    requires d.Valid() && !d.IsFull()
    modifies d, d.buffer
    ensures d.Valid()
    ensures r == v && d.head == old(d.head) && d.tail == old(d.tail)
    ensures d.Contents() == old(d.Contents())
  {
    d.PushFront(v);
    assert d.Front() == v;
    r := d.PopFront();
  }

  /** Pushing at the back and popping straight away gives back the value and the old state. */
  method PushPopBack(d: Deque, v: Word) returns (r: Word)
    requires d.Valid() && !d.IsFull()
    modifies d, d.buffer
    ensures d.Valid()
    ensures r == v && d.head == old(d.head) && d.tail == old(d.tail)
    ensures d.Contents() == old(d.Contents())
  {
    d.PushBack(v);
    assert d.Back() == v;
    r := d.PopBack();
  }

  // The source's own cursor expressions, as C evaluates them.

  /**
   * `deque_empty` as written: `tail + 1` is computed as an `int` and never
   * wraps, so a ring whose `tail` is 255 never reads as empty.
   */
  function IsEmptyAsWritten(head: Byte, tail: Byte): (b: bool)
    ensures b ==> Count(head, tail) == 0
    ensures Count(head, tail) == 0 && tail != 0xFF ==> b
  {
    head == tail + 1
  }

  /**
   * `deque_pop_front` with the empty test as written: the value returned and
   * the new `head` (the pre-decrement `--head` does wrap, as a `u8`).
   */
  function PopFrontAsWritten(buf: seq<Word>, head: Byte, tail: Byte): (r: (Word, Byte))
    requires |buf| == Slots
  {
    if IsEmptyAsWritten(head, tail) then (0, head)
    else ((buf[Wrap(head - 1)]), Wrap(head - 1))
  }

  /**
   * Right after `deque_init` the ring is empty, yet `deque_pop_front` does
   * not return the sentinel: it returns slot 255 and leaves the cursors
   * equal, so the ring then reads as full.
   */
  lemma PopFrontAfterInitAsWritten(buf: seq<Word>)
    requires |buf| == Slots
    ensures Live(buf, 0, 0xFF) == []
    ensures PopFrontAsWritten(buf, 0, 0xFF) == (buf[0xFF], 0xFF)
    ensures Count(0xFF, 0xFF) == MaxLen
  {
  }

  /**
   * The slot `deque_front` reads, as written: `head - 1` in `int`. `None`
   * stands for a read outside the 256 slots (slot -1).
   */
  function FrontAsWritten(buf: seq<Word>, head: Byte, tail: Byte): (r: Option<Word>)
    requires |buf| == Slots
    ensures r == None <==> head == 0
  {
    if IsEmptyAsWritten(head, tail) then Some(0)
    else if head - 1 >= 0 then Some(buf[head - 1])
    else None
  }

  /**
   * The slot `deque_back` reads, as written: `tail + 1` in `int`. `None`
   * stands for a read outside the 256 slots (slot 256).
   */
  function BackAsWritten(buf: seq<Word>, head: Byte, tail: Byte): (r: Option<Word>)
    requires |buf| == Slots
    ensures r == None <==> tail == 0xFF
  {
    if IsEmptyAsWritten(head, tail) then Some(0)
    else if tail + 1 < Slots then Some(buf[tail + 1])
    else None
  }

  /**
   * Once `head` has wrapped to 0 with elements stored, `deque_front` as
   * written reads slot -1, outside the buffer, while the front element sits
   * in slot 255; elsewhere it agrees with `Deque.Front`.
   */
  lemma FrontAsWrittenAtWrappedHead(buf: seq<Word>, head: Byte, tail: Byte)
    requires |buf| == Slots
    ensures head == 0 && tail != 0xFF ==>
      Live(buf, head, tail) != [] && Live(buf, head, tail)[0] == buf[0xFF] && FrontAsWritten(buf, head, tail) == None
    ensures head != 0 && Live(buf, head, tail) != [] ==> FrontAsWritten(buf, head, tail) == Some(Live(buf, head, tail)[0])
  {
    if Count(head, tail) > 0 {
      LivePopFront(buf, head, tail);
    }
  }

  /**
   * With `tail` at 255 and elements stored (as right after `deque_init` and
   * one push), `deque_back` as written reads slot 256, outside the buffer,
   * while the back element sits in slot 0; elsewhere it agrees with
   * `Deque.Back`.
   */
  lemma BackAsWrittenAtWrappedTail(buf: seq<Word>, head: Byte, tail: Byte)
    requires |buf| == Slots
    ensures tail == 0xFF && head != 0 ==>
      Live(buf, head, tail) != [] && Live(buf, head, tail)[|Live(buf, head, tail)| - 1] == buf[0] &&
      BackAsWritten(buf, head, tail) == None
    ensures tail != 0xFF && Live(buf, head, tail) != [] ==>
      BackAsWritten(buf, head, tail) == Some(Live(buf, head, tail)[|Live(buf, head, tail)| - 1])
  {
    if Count(head, tail) > 0 {
      LivePopBack(buf, head, tail);
    }
  }
}
