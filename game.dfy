/** The game loop: keyboard handling, the start of a game, and one tick of the
    main loop (commit the direction, eat or collide, test for a win, move). */
module Game {
  import opened Opt
  import opened Grid
  import opened Cells
  import opened Keys
  import opened Snakes
  import opened Apples

  /** How a tick ends: the loop goes on, the player has won, or the window was
      closed. */
  datatype TickResult = Continue | Victory | Exit

  /** The head has run into a cell of its own body. */
  function SelfCollided(positions: seq<Cell>): (r: bool)
    requires |positions| >= 1
    ensures r <==> exists k :: 1 <= k < |positions| && positions[k] == positions[0]
  {
    positions[0] in positions[1..]
  }

  /** What holds between two ticks of a running game: the snake is valid and
      shorter than the grid, its pending direction is already committed, the
      apple lies on the grid and not behind the head, and no cell behind the
      head repeats (only the head can overlap the body, and that is detected
      at the next tick). */
  ghost predicate Playing(snake: Snake, apple: Apple)
    reads snake
  {
    snake.Valid() && snake.length < TOTAL_CELLS &&
    (snake.nextDirection == None || snake.nextDirection == Some(snake.direction)) &&
    OnGrid(apple.position) && apple.position !in snake.positions[1..] &&
    Distinct(snake.positions[1..])
  }

  /** In a running game, a head that reaches the apple has not also run into
      the body, so the collision test skipped when eating hides nothing. */
  lemma EatingIsNotColliding(snake: Snake, apple: Apple)
    requires Playing(snake, apple) && snake.positions[0] == apple.position
    ensures !SelfCollided(snake.positions)
  {
  }

  /** A body whose head does not repeat, and whose other cells do not repeat,
      has no repeated cell at all. */
  lemma DistinctWithHead(positions: seq<Cell>)
    requires |positions| >= 1 && !SelfCollided(positions) && Distinct(positions[1..])
    ensures Distinct(positions)
  {
  }

  /** Handles one poll of events: each arrow key that does not reverse the
      current direction becomes the pending direction, later keys overriding
      earlier ones; a Quit event ends the handling and is reported. */
  method HandleKeys(snake: Snake, events: seq<Event>) returns (quit: bool)
    modifies snake`nextDirection
    ensures quit <==> Quit in events
    ensures snake.nextDirection ==
            AfterEvents(events, snake.direction, old(snake.nextDirection))
  {
    var i := 0;
    while i < |events|
      invariant 0 <= i <= |events|
      invariant Quit !in events[..i]
      invariant AfterEvents(events[i..], snake.direction, snake.nextDirection) ==
                AfterEvents(events, snake.direction, old(snake.nextDirection))
    {
      assert events[i..][1..] == events[i + 1..];
      assert events[..i + 1] == events[..i] + [events[i]];
      match events[i] {
        case Quit =>
          return true;
        case KeyDown(key) =>
          var next := KeyTarget(key, snake.direction);
          if next.Some? {
            snake.nextDirection := next;
          }
        case OtherEvent =>
      }
      i := i + 1;
    }
    assert events[..i] == events;
    return false;
  }

  /** The start of a game: a fresh snake and an apple placed off it. */
  method Start() returns (snake: Snake, apple: Apple)
    ensures fresh(snake) && fresh(apple)
    ensures snake.length == 1 && snake.positions == [CENTER]
    ensures snake.direction == Right && snake.nextDirection == None && snake.last == None
    ensures apple.position != CENTER
    ensures Playing(snake, apple)
  {
    snake := new Snake();
    FreeCellExists(snake.positions);
    apple := new Apple(snake.positions);
  }

  /** One iteration of the main loop. The keyboard is polled and the pending
      direction committed; then, tested on the body left by the previous
      move: if the head is on the apple the snake's length grows by one and a new
      apple is placed off the body, else if the head is on the body the snake
      is reset; if the length has reached the number of grid cells the player
      has won and the snake does not move; otherwise the snake moves. */
  method Tick(snake: Snake, apple: Apple, events: seq<Event>)
    returns (newApple: Apple, result: TickResult)
    requires Playing(snake, apple)
    modifies snake
    ensures result == Exit <==> Quit in events
    ensures result == Exit ==>
              newApple == apple &&
              snake.nextDirection == AfterEvents(events, old(snake.direction), old(snake.nextDirection)) &&
              unchanged(snake`length, snake`positions, snake`direction, snake`last)
    // The direction: the committed key choice, never a reversal.
    ensures result != Exit ==>
              snake.nextDirection == AfterEvents(events, old(snake.direction), old(snake.nextDirection)) &&
              snake.direction == Committed(snake.nextDirection, old(snake.direction)) &&
              snake.direction != Opposite(old(snake.direction))
    // Eating: the length grows by exactly one and the new apple is off the body.
    ensures result != Exit && old(snake.positions[0]) == apple.position ==>
              snake.length == old(snake.length) + 1 &&
              fresh(newApple) && OnGrid(newApple.position) &&
              newApple.position !in old(snake.positions)
    ensures result == Victory <==>
              result != Exit && old(snake.positions[0]) == apple.position &&
              old(snake.length) + 1 == TOTAL_CELLS
    ensures result == Victory ==> snake.positions == old(snake.positions) && snake.last == old(snake.last)
    // After eating, the move keeps the tail: the body grows by one cell.
    ensures result == Continue && old(snake.positions[0]) == apple.position ==>
              snake.positions == [NextHead(old(snake.positions[0]), snake.direction)] + old(snake.positions) &&
              snake.last == None
    // Collision: back to one cell at the centre, which the move then vacates.
    ensures result == Continue && old(snake.positions[0]) != apple.position &&
            old(SelfCollided(snake.positions)) ==>
              newApple == apple && snake.length == 1 &&
              snake.positions == [NextHead(CENTER, snake.direction)] &&
              snake.last == Some(CENTER)
    // Otherwise: a plain move with the length unchanged.
    ensures result == Continue && old(snake.positions[0]) != apple.position &&
            !old(SelfCollided(snake.positions)) ==>
              newApple == apple && snake.length == old(snake.length) &&
              (snake.positions, snake.last) ==
              Advance(old(snake.positions), NextHead(old(snake.positions[0]), snake.direction), snake.length)
    ensures result == Continue ==> Playing(snake, newApple)
  {
    var quit := HandleKeys(snake, events);
    if quit {
      return apple, Exit;
    }
    NoReversal(events, old(snake.direction), old(snake.nextDirection));
    snake.UpdateDirection();

    newApple := apple;
    ghost var body := snake.positions;
    if snake.HeadPosition() == apple.position {
      snake.length := snake.length + 1;
      FreeCellExists(snake.positions);
      newApple := new Apple(snake.positions);
    } else if SelfCollided(snake.positions) {
      snake.Reset();
    }

    if snake.length == TOTAL_CELLS {
      return newApple, Victory;
    }

    ghost var moved := snake.positions;
    snake.Move();
    result := Continue;

    // The invariant for the next tick.
    AdvanceBehindHead(moved, snake.positions[0], snake.length, newApple.position);
    if body[0] == apple.position || !SelfCollided(body) {
      DistinctWithHead(body);
    }
  }
}
