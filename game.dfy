/** The game loop: each tick handles the pending input, moves the snake and
 *  lets it eat the apple when its head lands on it. */
module Game {
  import opened Grid
  import opened Entities
  import opened Input

  /** The part of a tick after input: the snake moves; when its new head is
   *  on the apple it grows by a copy of its last segment and the apple is
   *  placed anew. The apple may land on the snake. */
  method Tick(snake: Snake, apple: Apple) returns (ate: bool)
    requires snake.Valid() && apple.Valid()
    modifies snake, apple
    ensures snake.Valid() && apple.Valid()
    ensures ate <==> Step(old(snake.Head()), old(snake.direction)) == old(apple.position)
    ensures snake.direction == old(snake.direction)
    ensures ate ==> snake.positions == Grown(Moved(old(snake.positions), old(snake.direction)))
    ensures !ate ==> snake.positions == Moved(old(snake.positions), old(snake.direction))
    ensures !ate ==> apple.position == old(apple.position)
    ensures |snake.positions| == old(|snake.positions|) + (if ate then 1 else 0)
  {
    snake.Move();
    ate := snake.Head() == apple.position;
    if ate {
      snake.positions := snake.positions + [snake.positions[|snake.positions| - 1]];
      apple.RandomizePosition();
    }
  }

  /** The game from a new snake and apple, over the polls `frames`, one per
   *  tick. It stops at the first poll that holds a quit event, before that
   *  tick's move, or when the polls run out. Returns whether a quit ended
   *  it, how many ticks moved the snake, how many apples were eaten, the
   *  snake's final length and the direction it faces at the end. */
  method Play(frames: seq<seq<Event>>) returns (quit: bool, ticks: nat, eaten: nat, length: nat, facing: Vec)
    ensures ticks <= |frames|
    ensures forall t :: 0 <= t < ticks ==> !HasQuit(frames[t])
    ensures quit ==> ticks < |frames| && HasQuit(frames[ticks])
    ensures !quit ==> ticks == |frames|
    ensures eaten <= ticks
    ensures length == 1 + eaten
    ensures IsDirection(facing)
  {
    var snake := new Snake();
    var apple := new Apple();
    quit, ticks, eaten := false, 0, 0;
    while ticks < |frames|
      invariant ticks <= |frames|
      invariant forall t :: 0 <= t < ticks ==> !HasQuit(frames[t])
      invariant snake.Valid() && apple.Valid() && IsDirection(snake.direction)
      invariant eaten <= ticks && |snake.positions| == 1 + eaten
    {
      ghost var before := snake.direction;
      var stop := HandleKeys(snake, frames[ticks]);
      QuitIffQuitEvent(before, frames[ticks]);
      OutcomeIsDirection(before, frames[ticks]);
      if stop {
        quit := true;
        break;
      }
      var ate := Tick(snake, apple);
      if ate {
        eaten := eaten + 1;
      }
      ticks := ticks + 1;
    }
    length := |snake.positions|;
    facing := snake.direction;
  }
}
