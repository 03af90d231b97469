/** The two game objects, the apple and the snake, together with the pure
 *  functions that specify what the snake's operations do to its body and
 *  its direction. */
module Entities {
  import opened Grid

  /** The direction after asking to turn from `current` to `d`: any request
   *  except the exact 180-degree reversal is taken. */
  function Steer(current: Vec, d: Vec): (r: Vec)
    ensures r == d || r == current
    ensures IsDirection(current) ==> (r == d <==> d != Opposite(current))
    ensures IsDirection(current) ==> r != Opposite(current)
    ensures IsDirection(current) && IsDirection(d) ==> IsDirection(r)
  {
    if d != Opposite(current) then d else current
  }

  /** The body after one move along `d`: a new wrapped head in front, the
   *  last segment dropped. */
  function Moved(body: seq<Cell>, d: Vec): (r: seq<Cell>)
    requires |body| >= 1
    ensures |r| == |body|
    ensures r[0] == Step(body[0], d)
    ensures forall i :: 1 <= i < |r| ==> r[i] == body[i - 1]
    ensures AllInBounds(body) ==> AllInBounds(r)
  {
    [Step(body[0], d)] + body[..|body| - 1]
  }

  /** The body after eating: the last segment doubled, so that it stays
   *  where it is on the next move while the rest of the body advances. */
  function Grown(body: seq<Cell>): (r: seq<Cell>)
    requires |body| >= 1
    ensures |r| == |body| + 1
    ensures r[..|body|] == body
    ensures r[|body|] == body[|body| - 1]
    ensures r[0] == body[0]
    ensures AllInBounds(body) ==> AllInBounds(r)
  {
    body + [body[|body| - 1]]
  }

  /** The body after `n` moves along the one direction `d`, with no turn
   *  and no apple. */
  function MovedTimes(body: seq<Cell>, d: Vec, n: nat): (r: seq<Cell>)
    requires |body| >= 1
    ensures |r| == |body|
    ensures AllInBounds(body) ==> AllInBounds(r)
  {
    if n == 0 then body else Moved(MovedTimes(body, d, n - 1), d)
  }

  /** The body after one move along each of `ds` in turn, with no apple:
   *  `ds[t]` is the direction in force at tick `t`. */
  function MovedAlong(body: seq<Cell>, ds: seq<Vec>): (r: seq<Cell>)
    requires |body| >= 1
    ensures |r| == |body|
    ensures AllInBounds(body) ==> AllInBounds(r)
    decreases |ds|
  {
    if ds == [] then body else Moved(MovedAlong(body, ds[..|ds| - 1]), ds[|ds| - 1])
  }

  /** A straight run is the special case where every tick has the same
   *  direction. */
  lemma {:induction false} StraightRunIsMovedAlong(body: seq<Cell>, d: Vec, n: nat)
    requires |body| >= 1
    ensures MovedTimes(body, d, n) == MovedAlong(body, seq(n, _ => d))
  {
    if n > 0 {
      StraightRunIsMovedAlong(body, d, n - 1);
      assert seq(n, _ => d)[..n - 1] == seq(n - 1, _ => d);
    }
  }

  /** After the moves `ds`, every segment that the head has not yet
   *  overtaken sits where the segment |ds| places ahead of it was. */
  lemma {:induction false} TrailsAlong(body: seq<Cell>, ds: seq<Vec>, i: nat)
    requires |body| >= 1
    requires |ds| <= i < |body|
    ensures MovedAlong(body, ds)[i] == body[i - |ds|]
    decreases |ds|
  {
    if ds != [] {
      TrailsAlong(body, ds[..|ds| - 1], i - 1);
    }
  }

  /** After the moves `ds`, segment k (for k < |ds|) is where the head was
   *  k ticks ago: the body follows the path of its head, turns included. */
  lemma {:induction false} FollowsHeadPath(body: seq<Cell>, ds: seq<Vec>, k: nat)
    requires |body| >= 1
    requires k < |ds| && k < |body|
    ensures MovedAlong(body, ds)[k] == MovedAlong(body, ds[..|ds| - k])[0]
    decreases |ds|
  {
    if k > 0 {
      var earlier := ds[..|ds| - 1];
      FollowsHeadPath(body, earlier, k - 1);
      assert earlier[..|earlier| - (k - 1)] == ds[..|ds| - k];
    } else {
      assert ds[..|ds|] == ds;
    }
  }

  lemma {:induction false} StraightRunRight(x: int, y: int, n: nat)
    requires InBounds((x, y))
    ensures MovedTimes([(x, y)], Right, n) == [((x + n) % GridWidth, y)]
  {
    Dimensions();
    if n > 0 {
      StraightRunRight(x, y, n - 1);
      var px := (x + n - 1) % GridWidth;
      assert Step((px, y), Right) == ((px + 1) % GridWidth, y);
      ModSuccWidth(x + n - 1);
    }
  }

  lemma ModSuccWidth(a: int)
    ensures (a % GridWidth + 1) % GridWidth == (a + 1) % GridWidth
  {
  }

  /** A new snake facing right returns to the left edge after sixteen moves:
   *  it starts at (16, 12) and wraps from column 31 to column 0. */
  lemma SixteenMovesWrap()
    ensures MovedTimes([Start], Right, 16) == [(0, 12)]
  {
    Dimensions();
    StraightRunRight(Start.0, Start.1, 16);
  }

  /** The apple: one cell of the board, placed anywhere, with no regard for
   *  where the snake is. */
  class Apple {
    var position: Cell

    ghost predicate Valid()
      reads this
    {
      InBounds(position)
    }

    constructor ()
      ensures Valid()
    {
      position := (0, 0);
      new;
      RandomizePosition();
    }

    /** Moves the apple to an arbitrary cell of the board; the only promise
     *  about the new cell is that it is on the board. */
    method RandomizePosition()
      modifies this
      ensures Valid()
    {
      var x :| 0 <= x <= GridWidth - 1;
      var y :| 0 <= y <= GridHeight - 1;
      position := (x, y);
    }
  }

  /** The snake: its cells head first, the direction it moves in, and
   *  `position`, which always mirrors the head. */
  class Snake {
    var positions: seq<Cell>
    var direction: Vec
    var position: Cell

    ghost predicate Valid()
      reads this
    {
      |positions| >= 1 && position == positions[0] && AllInBounds(positions)
    }

    /** A single segment at the centre of the board, facing right. */
    constructor ()
      ensures Valid()
      ensures positions == [Start] && direction == Right && position == Start
    {
      Dimensions();
      positions := [Start];
      direction := Right;
      position := Start;
    }

    function Head(): (h: Cell)
      reads this
      requires Valid()
      ensures h == position && InBounds(h)
    {
      positions[0]
    }

    /** Takes the new direction unless it reverses the current one. */
    method UpdateDirection(newDirection: Vec)
      modifies this
      ensures direction == Steer(old(direction), newDirection)
      ensures positions == old(positions) && position == old(position)
    {
      var opposite := Opposite(direction);
      if newDirection != opposite {
        direction := newDirection;
      }
    }

    /** Puts the wrapped next cell in front of the head and drops the last
     *  segment, so the length stays the same. */
    method Move()
      requires Valid()
      modifies this
      ensures Valid()
      ensures positions == Moved(old(positions), old(direction))
      ensures direction == old(direction)
      ensures |positions| == old(|positions|)
      ensures Head() == Step(old(Head()), direction)
      ensures positions[1..] == old(positions[..|positions| - 1])
    {
      var head := Head();
      var newHead := Step(head, direction);
      positions := [newHead] + positions;
      position := newHead;
      positions := positions[..|positions| - 1];
    }

    /** Back to the state of a new snake. */
    method Reset()
      modifies this
      ensures Valid()
      ensures positions == [Start] && direction == Right && position == Start
    {
      Dimensions();
      positions := [Start];
      direction := Right;
      position := Start;
    }
  }
}
