/** Keyboard input: the guard that turns an arrow key into a pending direction
    unless it would reverse the snake, the effect of a whole poll of events on
    the pending direction, and the commit of the pending direction at the start
    of a tick. */
module Keys {
  import opened Opt
  import opened Grid

  datatype Key = ArrowUp | ArrowDown | ArrowLeft | ArrowRight | OtherKey

  /** What one poll of the event queue can deliver. */
  datatype Event = Quit | KeyDown(key: Key) | OtherEvent

  /** The direction an arrow key asks for. */
  function Requested(key: Key): Option<Direction> {
    match key
    case ArrowUp => Some(Up)
    case ArrowDown => Some(Down)
    case ArrowLeft => Some(Left)
    case ArrowRight => Some(Right)
    case OtherKey => None
  }

  /** The guard of one key press against the current direction: the new
      pending direction, or None when the key is ignored. */
  function KeyTarget(key: Key, current: Direction): (r: Option<Direction>)
    ensures r.Some? <==> Requested(key).Some? && Requested(key).value != Opposite(current)
    ensures r.Some? ==> r == Requested(key)
  {
    if key == ArrowUp && current != Down then Some(Up)
    else if key == ArrowDown && current != Up then Some(Down)
    else if key == ArrowLeft && current != Right then Some(Left)
    else if key == ArrowRight && current != Left then Some(Right)
    else None
  }

  /** The pending direction after handling `events` in order, starting from
      `pending`, while the current direction stays `current`; handling stops
      at the first Quit. It is the old pending direction or one that does not
      reverse `current`. */
  function AfterEvents(events: seq<Event>, current: Direction, pending: Option<Direction>)
    : (r: Option<Direction>)
    ensures r == pending || (r.Some? && r.value != Opposite(current))
  {
    if events == [] then pending
    else match events[0]
      case Quit => pending
      case KeyDown(key) =>
        var next := KeyTarget(key, current);
        AfterEvents(events[1..], current, if next.Some? then next else pending)
      case OtherEvent => AfterEvents(events[1..], current, pending)
  }

  /** The direction after the pending one is committed: the pending direction
      if there is one, else the current one unchanged. */
  function Committed(pending: Option<Direction>, current: Direction): (r: Direction)
    ensures pending == None ==> r == current
    ensures pending != None ==> Some(r) == pending
  {
    match pending
    case Some(p) => p
    case None => current
  }

  /** Of the key presses in one poll, the last one the guard accepts decides
      the pending direction. */
  lemma {:induction false} LastAcceptedKeyWins(events: seq<Event>, key: Key, current: Direction,
                                               pending: Option<Direction>)
    requires Quit !in events
    ensures AfterEvents(events + [KeyDown(key)], current, pending) ==
            if KeyTarget(key, current).Some? then KeyTarget(key, current)
            else AfterEvents(events, current, pending)
  {
    if events != [] {
      assert (events + [KeyDown(key)])[1..] == events[1..] + [KeyDown(key)];
      match events[0]
      case KeyDown(k) =>
        var next := KeyTarget(k, current);
        LastAcceptedKeyWins(events[1..], key, current, if next.Some? then next else pending);
      case OtherEvent =>
        LastAcceptedKeyWins(events[1..], key, current, pending);
    }
  }

  /** Events after a Quit are never handled. */
  lemma {:induction false} QuitEndsPoll(before: seq<Event>, after: seq<Event>, current: Direction,
                                        pending: Option<Direction>)
    ensures AfterEvents(before + [Quit] + after, current, pending) ==
            AfterEvents(before + [Quit], current, pending)
  {
    if before == [] {
      assert (before + [Quit] + after)[0] == Quit;
    } else {
      assert (before + [Quit] + after)[1..] == before[1..] + [Quit] + after;
      assert (before + [Quit])[1..] == before[1..] + [Quit];
      match before[0]
      case Quit =>
      case KeyDown(k) =>
        var next := KeyTarget(k, current);
        QuitEndsPoll(before[1..], after, current, if next.Some? then next else pending);
      case OtherEvent =>
        QuitEndsPoll(before[1..], after, current, pending);
    }
  }

  /** A key pointing back against the current direction, pressed at the end of
      any poll, changes nothing. */
  lemma ReversingKeyIgnored(events: seq<Event>, key: Key, current: Direction,
                            pending: Option<Direction>)
    requires Requested(key) == Some(Opposite(current))
    ensures AfterEvents(events + [KeyDown(key)], current, pending) ==
            AfterEvents(events, current, pending)
  {
    if Quit in events {
      var i :| 0 <= i < |events| && events[i] == Quit;
      var before, after := events[..i], events[i + 1..];
      assert events == before + [Quit] + after;
      assert events + [KeyDown(key)] == before + [Quit] + (after + [KeyDown(key)]);
      QuitEndsPoll(before, after, current, pending);
      QuitEndsPoll(before, after + [KeyDown(key)], current, pending);
    } else {
      LastAcceptedKeyWins(events, key, current, pending);
    }
  }

  /** Handling a poll and then committing the pending direction never turns
      the snake around, provided the pending direction left over from the
      previous tick is unset or equal to the current direction (which the
      commit of that tick guarantees). */
  lemma NoReversal(events: seq<Event>, current: Direction, pending: Option<Direction>)
    requires pending == None || pending == Some(current)
    ensures Committed(AfterEvents(events, current, pending), current) != Opposite(current)
  {
  }
}
