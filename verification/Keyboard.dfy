/** The keyboard buffer of a process (keyboard.c): a ring of 1024 bytes without a length. */
module Keyboard {
  import opened Bits
  import Arith

  const SIZE := 1024

  /** head and tail run freely through the 32-bit numbers; only their remainders index the buffer. */
  datatype Ring = Ring(buffer: seq<byte>, head: uint32, tail: uint32)

  /** Number of pushes minus pops, as far as head and tail can tell. */
  function Outstanding(r: Ring): nat {
    Wrap(r.tail - r.head)
  }

  /** Ring r holds exactly the characters q, oldest first, and zeros elsewhere. */
  ghost predicate Represents(r: Ring, q: seq<byte>) {
    && |r.buffer| == SIZE && |q| <= SIZE && Outstanding(r) == |q|
    && (forall i :: 0 <= i < |q| ==> q[i] != 0)
    && (forall s :: 0 <= s < SIZE ==> r.buffer[s] == Cell(r, q, s))
  }

  /** Content of buffer cell s: the character s places after the head's cell, if there is one. */
  function Cell(r: Ring, q: seq<byte>, s: nat): byte
    requires s < SIZE
  {
    var i := (s - r.head) % SIZE;
    if i < |q| then q[i] else 0
  }

  function Push(r: Ring, c: byte): Ring
    requires |r.buffer| == SIZE
  {
    if c == 0 then r else Ring(r.buffer[r.tail % SIZE := c], r.head, Wrap(r.tail + 1))
  }

  function Backspace(r: Ring): Ring
    requires |r.buffer| == SIZE
  {
    var tail := Wrap(r.tail - 1);
    Ring(r.buffer[tail % SIZE := 0], r.head, tail)
  }

  function PopChar(r: Ring): byte
    requires |r.buffer| == SIZE
  {
    r.buffer[r.head % SIZE]
  }

  function Pop(r: Ring): Ring
    requires |r.buffer| == SIZE
  {
    if PopChar(r) == 0 then r else Ring(r.buffer[r.head % SIZE := 0], Wrap(r.head + 1), r.tail)
  }

  lemma OutstandingIs(head: uint32, tail: uint32, n: nat)
    requires n < U32
    ensures Wrap(tail - head) == n <==> tail == Wrap(head + n)
  {
  }

  lemma SameCell(x: nat)
    ensures Wrap(x) % SIZE == x % SIZE
  {
    var q, r := x / U32, Wrap(x);
    Arith.DivMod(x, SIZE, 0x400000 * q + r / SIZE, r % SIZE);
  }

  lemma PlaceIs(head: nat, n: nat, s: nat)
    requires n < SIZE && s < SIZE
    ensures s == (head + n) % SIZE <==> (s - head) % SIZE == n
  {
  }

  /** The tail's cell is n places after the head's, also across the wrap of either counter. */
  lemma TailAfterHead(head: uint32, tail: uint32, n: nat, s: nat)
    requires Wrap(tail - head) == n < SIZE && s < SIZE
    ensures s == tail % SIZE <==> (s - head) % SIZE == n
  {
    OutstandingIs(head, tail, n);
    SameCell(head + n);
    PlaceIs(head, n, s);
  }

  lemma TailMoves(head: uint32, tail: uint32, n: nat)
    requires Wrap(tail - head) == n <= SIZE
    ensures Wrap(Wrap(tail + 1) - head) == n + 1
    ensures n > 0 ==> Wrap(Wrap(tail - 1) - head) == n - 1
    ensures n == 0 ==> Wrap(Wrap(tail - 1) - head) == U32 - 1
  {
    hide Wrap;
    WrapAdd(tail + 1, -(head as int));
    WrapAdd(tail - 1, -(head as int));
    WrapAdd(tail - head, 1);
    WrapAdd(tail - head, -1);
    SmallWrap(n);
  }

  lemma WrapAdd(a: int, b: int)
    ensures Wrap(Wrap(a) + b) == Wrap(a + b)
  {
    assert a == U32 * (a / U32) + Wrap(a);
  }

  lemma SmallWrap(n: nat)
    requires n <= SIZE
    ensures Wrap(n + 1) == n + 1 && (if n > 0 then Wrap(n - 1) == n - 1 else Wrap(n - 1) == U32 - 1)
  {
  }

  /** A pushed character joins the end of the queue, unless 1024 are waiting already: then the ring
      represents no queue any more. */
  lemma PushIsEnqueue(r: Ring, q: seq<byte>, c: byte)
    requires Represents(r, q) && c != 0
    ensures |q| < SIZE ==> Represents(Push(r, c), q + [c])
    ensures (exists p :: Represents(Push(r, c), p)) <==> |q| < SIZE
  {
    hide Wrap;
    var n, p := Push(r, c), q + [c];
    TailMoves(r.head, r.tail, |q|);
    if |q| < SIZE {
      forall s | 0 <= s < SIZE ensures n.buffer[s] == Cell(n, p, s) {
        assert r.buffer[s] == Cell(r, q, s);
        TailAfterHead(r.head, r.tail, |q|, s);
      }
      assert Represents(n, p);
    }
  }

  /** keyboard_pop returns 0 exactly when nothing waits, and otherwise takes the oldest character. */
  lemma PopIsDequeue(r: Ring, q: seq<byte>)
    requires Represents(r, q)
    ensures PopChar(r) == 0 <==> q == []
    ensures q == [] ==> Pop(r) == r
    ensures q != [] ==> PopChar(r) == q[0] && Represents(Pop(r), q[1..])
  {
    var h := r.head % SIZE;
    assert r.buffer[h] == Cell(r, q, h);
    assert (h - r.head) % SIZE == 0;
    if q != [] {
      var n, p := Pop(r), q[1..];
      HeadMoves(r, |q|);
      forall s | 0 <= s < SIZE ensures n.buffer[s] == Cell(n, p, s) {
        assert r.buffer[s] == Cell(r, q, s);
        NextPlace(r.head, s);
      }
    }
  }

  lemma HeadMoves(r: Ring, n: nat)
    requires Outstanding(r) == n && 0 < n <= SIZE
    ensures Outstanding(r.(head := Wrap(r.head + 1))) == n - 1
  {
  }

  /** Seen from the next head, every cell but the old head's own comes one place earlier. */
  lemma NextPlace(head: uint32, s: nat)
    requires s < SIZE
    ensures var i, j := (s - head) % SIZE, (s - Wrap(head + 1)) % SIZE;
      (i == 0 <==> s == head % SIZE) && (i == 0 ==> j == SIZE - 1) && (i > 0 ==> j == i - 1)
  {
    assert Wrap(head + 1) % SIZE == (head + 1) % SIZE;
  }

  /** keyboard_backspace removes the newest character; with nothing waiting it moves the tail
      below the head and the ring represents no queue any more. */
  lemma BackspaceIsDrop(r: Ring, q: seq<byte>)
    requires Represents(r, q)
    ensures q != [] ==> Represents(Backspace(r), q[..|q| - 1])
    ensures (exists p :: Represents(Backspace(r), p)) <==> q != []
  {
    hide Wrap;
    var n := Backspace(r);
    TailMoves(r.head, r.tail, |q|);
    if q != [] {
      var p := q[..|q| - 1];
      forall s | 0 <= s < SIZE ensures n.buffer[s] == Cell(n, p, s) {
        assert r.buffer[s] == Cell(r, q, s);
        TailAfterHead(r.head, n.tail, |p|, s);
      }
      assert Represents(n, p);
    }
  }

  class Buffer {
    const buffer: array<byte>
    var head: uint32
    var tail: uint32

    constructor (buffer: array<byte>)
      ensures this.buffer == buffer && head == 0 && tail == 0
    {
      this.buffer, head, tail := buffer, 0, 0;
    }

    function View(): Ring
      reads this, buffer
    {
      Ring(buffer[..], head, tail)
    }

    method KeyboardPush(c: byte)
      requires buffer.Length == SIZE
      modifies this`tail, buffer
      ensures View() == Push(old(View()), c)
    {
      if c == 0 {
        return;
      }
      buffer[tail % SIZE] := c;
      tail := Wrap(tail + 1);
    }

    method KeyboardPop() returns (c: byte)
      requires buffer.Length == SIZE
      modifies this`head, buffer
      ensures c == PopChar(old(View())) && View() == Pop(old(View()))
    {
      var index := head % SIZE;
      c := buffer[index];
      if c == 0 {
        return 0;
      }
      buffer[index] := 0;
      head := Wrap(head + 1);
    }

    method KeyboardBackspace()
      requires buffer.Length == SIZE
      modifies this`tail, buffer
      ensures View() == Backspace(old(View()))
    {
      tail := Wrap(tail - 1);
      buffer[tail % SIZE] := 0;
    }
  }
}
