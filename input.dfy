/** Player input: the events one poll delivers, and the handler that turns
 *  them into a quit request or direction changes of the snake. */
module Input {
  import opened Grid
  import opened Entities

  /** The keys the handler tells apart; every other key is `OtherKey`. */
  datatype Key = EscapeKey | QKey | UpKey | DownKey | LeftKey | RightKey | OtherKey(code: int)

  /** A window-close request, a key press, or any other event. */
  datatype Event = QuitEvent | KeyDown(key: Key) | OtherEvent(kind: int)

  /** The window was closed, or Escape or q was pressed. */
  predicate IsQuit(e: Event) {
    e.QuitEvent? || (e.KeyDown? && (e.key == EscapeKey || e.key == QKey))
  }

  predicate IsArrow(e: Event) {
    e.KeyDown? && (e.key == UpKey || e.key == DownKey || e.key == LeftKey || e.key == RightKey)
  }

  /** The direction an arrow key asks for. */
  function ArrowDirection(e: Event): (d: Vec)
    requires IsArrow(e)
    ensures IsDirection(d)
  {
    match e.key
    case UpKey => Up
    case DownKey => Down
    case LeftKey => Left
    case RightKey => Right
  }

  /** What handling `events` in order does, starting from direction
   *  `current`: whether the game is to stop, and the snake's direction
   *  afterwards. Handling stops at the first quit event; only an arrow key
   *  can turn the snake. */
  function KeysOutcome(current: Vec, events: seq<Event>): (r: (bool, Vec))
    ensures r.1 != current ==> HasArrow(events)
    ensures r.0 ==> events != []
    decreases events
  {
    if events == [] then (false, current)
    else if IsQuit(events[0]) then (true, current)
    else if IsArrow(events[0]) then KeysOutcome(Steer(current, ArrowDirection(events[0])), events[1..])
    else
      var r := KeysOutcome(current, events[1..]);
      assert r.1 != current ==> HasArrow(events) by {
        if r.1 != current {
          var i :| 0 <= i < |events[1..]| && IsArrow(events[1..][i]);
          assert events[i + 1] == events[1..][i];
        }
      }
      r
  }

  predicate HasQuit(events: seq<Event>) {
    exists i :: 0 <= i < |events| && IsQuit(events[i])
  }

  predicate HasArrow(events: seq<Event>) {
    exists i :: 0 <= i < |events| && IsArrow(events[i])
  }

  /** The directions asked for by the arrow keys among `events`, in order. */
  function Arrows(events: seq<Event>): (ds: seq<Vec>)
    ensures |ds| <= |events|
    ensures forall i :: 0 <= i < |ds| ==> IsDirection(ds[i])
  {
    if events == [] then []
    else (if IsArrow(events[0]) then [ArrowDirection(events[0])] else []) + Arrows(events[1..])
  }

  /** The direction after the turn requests `ds`, each subject to the
   *  reversal guard against the direction the previous ones left. */
  function SteerAll(current: Vec, ds: seq<Vec>): Vec
    decreases ds
  {
    if ds == [] then current else SteerAll(Steer(current, ds[0]), ds[1..])
  }

  /** The handler asks to stop exactly when some event is a quit event. */
  lemma {:induction false} QuitIffQuitEvent(current: Vec, events: seq<Event>)
    ensures KeysOutcome(current, events).0 <==> HasQuit(events)
    decreases events
  {
    if events != [] && !IsQuit(events[0]) {
      var next := if IsArrow(events[0]) then Steer(current, ArrowDirection(events[0])) else current;
      QuitIffQuitEvent(next, events[1..]);
      if HasQuit(events) {
        var i :| 0 <= i < |events| && IsQuit(events[i]);
        assert events[1..][i - 1] == events[i];
      }
      if HasQuit(events[1..]) {
        var i :| 0 <= i < |events[1..]| && IsQuit(events[1..][i]);
        assert events[i + 1] == events[1..][i];
      }
    }
  }

  /** Without a quit event every arrow key is applied, in event order, and
   *  nothing else changes the direction. */
  lemma {:induction false} NoQuitAppliesArrows(current: Vec, events: seq<Event>)
    requires !HasQuit(events)
    ensures KeysOutcome(current, events) == (false, SteerAll(current, Arrows(events)))
    decreases events
  {
    if events != [] {
      assert !IsQuit(events[0]);
      assert !HasQuit(events[1..]) by {
        forall i | 0 <= i < |events[1..]| ensures !IsQuit(events[1..][i]) {
          assert events[1..][i] == events[i + 1];
        }
      }
      if IsArrow(events[0]) {
        var next := Steer(current, ArrowDirection(events[0]));
        NoQuitAppliesArrows(next, events[1..]);
        var ds := Arrows(events[1..]);
        assert Arrows(events) == [ArrowDirection(events[0])] + ds;
        assert ([ArrowDirection(events[0])] + ds)[1..] == ds;
      } else {
        NoQuitAppliesArrows(current, events[1..]);
        assert Arrows(events) == Arrows(events[1..]);
      }
    }
  }

  /** At the first quit event the handler stops: the arrow keys before it
   *  are applied and no later event has any effect. */
  lemma {:induction false} StopsAtFirstQuit(current: Vec, before: seq<Event>, quit: Event, after: seq<Event>)
    requires !HasQuit(before) && IsQuit(quit)
    ensures KeysOutcome(current, before + [quit] + after) == (true, SteerAll(current, Arrows(before)))
    decreases before
  {
    var events := before + [quit] + after;
    if before == [] {
      assert events[0] == quit;
    } else {
      assert events[0] == before[0];
      assert events[1..] == before[1..] + [quit] + after;
      assert !HasQuit(before[1..]) by {
        forall i | 0 <= i < |before[1..]| ensures !IsQuit(before[1..][i]) {
          assert before[1..][i] == before[i + 1];
        }
      }
      assert !IsQuit(before[0]);
      if IsArrow(before[0]) {
        StopsAtFirstQuit(Steer(current, ArrowDirection(before[0])), before[1..], quit, after);
        var ds := Arrows(before[1..]);
        assert Arrows(before) == [ArrowDirection(before[0])] + ds;
        assert ([ArrowDirection(before[0])] + ds)[1..] == ds;
      } else {
        StopsAtFirstQuit(current, before[1..], quit, after);
        assert Arrows(before) == Arrows(before[1..]);
      }
    }
  }

  /** An event that is neither a quit event nor an arrow key has no effect,
   *  wherever it stands in the poll. */
  lemma {:induction false} IgnoredEventHasNoEffect(current: Vec, before: seq<Event>, e: Event, after: seq<Event>)
    requires !IsQuit(e) && !IsArrow(e)
    ensures KeysOutcome(current, before + [e] + after) == KeysOutcome(current, before + after)
    decreases before
  {
    var events := before + [e] + after;
    if before == [] {
      assert events == [e] + after && before + after == after;
      assert events[1..] == after;
    } else {
      var first := before[0];
      assert events[0] == first && (before + after)[0] == first;
      assert events[1..] == before[1..] + [e] + after;
      assert (before + after)[1..] == before[1..] + after;
      if !IsQuit(first) {
        var next := if IsArrow(first) then Steer(current, ArrowDirection(first)) else current;
        IgnoredEventHasNoEffect(next, before[1..], e, after);
      }
    }
  }

  /** Starting from one of the four directions, the handler leaves the
   *  snake facing one of the four directions. */
  lemma {:induction false} OutcomeIsDirection(current: Vec, events: seq<Event>)
    requires IsDirection(current)
    ensures IsDirection(KeysOutcome(current, events).1)
    decreases events
  {
    if events != [] && !IsQuit(events[0]) {
      if IsArrow(events[0]) {
        OutcomeIsDirection(Steer(current, ArrowDirection(events[0])), events[1..]);
      } else {
        OutcomeIsDirection(current, events[1..]);
      }
    }
  }

  /** Drains one poll's `events` in order: a quit event ends the handling
   *  at once with `true`; an arrow key asks the snake to turn; anything
   *  else is ignored. Returns `false` when no quit event came. */
  method HandleKeys(snake: Snake, events: seq<Event>) returns (quit: bool)
    modifies snake
    ensures (quit, snake.direction) == KeysOutcome(old(snake.direction), events)
    ensures snake.positions == old(snake.positions) && snake.position == old(snake.position)
  {
    var i := 0;
    while i < |events|
      invariant 0 <= i <= |events|
      invariant KeysOutcome(snake.direction, events[i..]) == KeysOutcome(old(snake.direction), events)
      invariant snake.positions == old(snake.positions) && snake.position == old(snake.position)
    {
      var event := events[i];
      assert events[i..][0] == event && events[i..][1..] == events[i + 1..];
      if event.QuitEvent? {
        return true;
      }
      if event.KeyDown? {
        if event.key == EscapeKey || event.key == QKey {
          return true;
        }
        if event.key == UpKey {
          snake.UpdateDirection(Up);
        } else if event.key == DownKey {
          snake.UpdateDirection(Down);
        } else if event.key == LeftKey {
          snake.UpdateDirection(Left);
        } else if event.key == RightKey {
          snake.UpdateDirection(Right);
        }
      }
      i := i + 1;
    }
    return false;
  }
}
