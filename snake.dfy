/** The snake: its body as a list of cells with the head first, the length it
    is allowed to reach, its current and pending directions, and the tail cell
    vacated by the last move. */
module Snakes {
  import opened Opt
  import opened Grid
  import opened Cells
  import opened Keys

  predicate AllOnGrid(s: seq<Cell>) {
    forall i :: 0 <= i < |s| ==> OnGrid(s[i])
  }

  /** One move of a body, as a value: `head` is put in front, and if the body
      is then longer than `length` its last cell is cut off and returned as the
      vacated cell. The cells behind the new head are the old cells in order,
      minus at most the old tail. */
  function Advance(positions: seq<Cell>, head: Cell, length: int): (r: (seq<Cell>, Option<Cell>))
    requires |positions| >= 1
    ensures |r.0| >= 1 && r.0[0] == head
    ensures |positions| + 1 > length ==>
              |r.0| == |positions| && r.1 == Some(positions[|positions| - 1])
    ensures |positions| + 1 <= length ==> |r.0| == |positions| + 1 && r.1 == None
    ensures r.0[1..] == positions[..|r.0| - 1]
  {
    var grown := [head] + positions;
    if |grown| > length then
      (grown[..|grown| - 1], Some(grown[|grown| - 1]))
    else
      (grown, None)
  }

  /** A body of between 1 and `length` on-grid cells stays so after a move onto
      an on-grid cell, and its size becomes min(old size + 1, length). */
  lemma AdvanceKeepsShape(positions: seq<Cell>, head: Cell, length: int)
    requires 1 <= |positions| <= length && AllOnGrid(positions) && OnGrid(head)
    ensures var body := Advance(positions, head, length).0;
      |body| == (if |positions| + 1 <= length then |positions| + 1 else length) &&
      1 <= |body| <= length && AllOnGrid(body)
  {
  }

  /** The cells behind the new head come from the old body: a cell that was not
      in the old body is not behind the new head, and an old body without
      repetitions gives a body behind the head without repetitions. */
  lemma AdvanceBehindHead(positions: seq<Cell>, head: Cell, length: int, c: Cell)
    requires |positions| >= 1
    ensures c !in positions ==> c !in Advance(positions, head, length).0[1..]
    ensures Distinct(positions) ==> Distinct(Advance(positions, head, length).0[1..])
  {
  }

  class Snake {
    /** The number of cells the body may hold; raised by one per apple. */
    var length: int
    /** The body, head first. */
    var positions: seq<Cell>
    var direction: Direction
    /** The direction asked for by the keyboard, applied at the next tick. */
    var nextDirection: Option<Direction>
    /** The tail cell the last move vacated, if it vacated one. */
    var last: Option<Cell>

    /** The body is a non-empty list of grid cells no longer than `length`. */
    ghost predicate Valid()
      reads this
    {
      1 <= |positions| <= length && AllOnGrid(positions)
    }

    /** A new snake: one cell at the centre, heading right, nothing pending. */
    constructor ()
      ensures length == 1 && positions == [CENTER]
      ensures direction == Right && nextDirection == None && last == None
      ensures Valid()
    {
      length := 1;
      positions := [CENTER];
      direction := Right;
      nextDirection := None;
      last := None;
    }

    /** The head: the first cell of the body. */
    function HeadPosition(): (h: Cell)
      reads this
      requires |positions| >= 1
      ensures h == positions[0]
      ensures Valid() ==> OnGrid(h)
    {
      positions[0]
    }

    /** Commits the pending direction, if any; the pending direction itself
        stays set. */
    method UpdateDirection()
      modifies this`direction
      ensures direction == Committed(old(nextDirection), old(direction))
    {
      if nextDirection.Some? {
        direction := nextDirection.value;
      }
    }

    /** Moves the head one cell in the current direction, wrapping around the
        screen, and drops the tail unless the snake is growing. The length and
        the directions do not change. */
    method Move()
      requires |positions| >= 1
      modifies this`positions, this`last
      ensures (positions, last) ==
              Advance(old(positions), NextHead(old(positions)[0], direction), length)
      ensures old(Valid()) ==> Valid()
    {
      var head := HeadPosition();
      var newHead := NextHead(head, direction);
      ghost var before := positions;
      positions := [newHead] + positions;
      if |positions| > length {
        last := Some(positions[|positions| - 1]);
        positions := positions[..|positions| - 1];
      } else {
        last := None;
      }
      if 1 <= |before| <= length && AllOnGrid(before) {
        NextHeadOnTorus(head, direction);
        AdvanceKeepsShape(before, newHead, length);
      }
    }

    /** Puts the snake back to one cell at the centre; the directions and the
        vacated cell are kept. */
    method Reset()
      modifies this`length, this`positions
      ensures length == 1 && positions == [CENTER]
      ensures Valid()
    {
      length := 1;
      positions := [CENTER];
    }
  }
}
