/**
 The simulation state of one game session and the systems that update it:
 input, movement with its collision checks, eating, growth, game-over reset
 and food placement.
 */
module Game {
  import opened Grid
  import opened Input
  import opened Food

  datatype Option<T> = None | Some(value: T)

  /** The snake every game starts from: head at (3, 3) heading up, one segment below it. */
  const SpawnHead := Position(3, 3)
  const SpawnBody := Position(3, 2)
  const SpawnHeading := Up

  /** The new head `h` ends the game: it lies outside the arena or on a cell of the snake `s` before the step. */
  predicate Collides(s: seq<Position>, h: Position) {
    !InBounds(h) || h in s
  }

  /**
   Every segment behind the head of `t` holds a cell of `s`: this is so after a
   movement step from `s`, and stays so when the old tail cell is appended.
   */
  lemma TrailFromSnapshot(s: seq<Position>, t: seq<Position>)
    requires |s| >= 1 && |s| <= |t| <= |s| + 1
    requires forall i :: 1 <= i < |s| ==> t[i] == s[i - 1]
    requires |t| == |s| + 1 ==> t[|s|] == s[|s| - 1]
    ensures forall q :: q in t[1..] ==> q in s
  {
    forall q | q in t[1..] ensures q in s {
      var i :| 1 <= i < |t| && t[i] == q;
      if i < |s| {
        assert s[i - 1] == q;
      } else {
        assert s[|s| - 1] == q;
      }
    }
  }

  class SnakeGame {
    /** Positions of the snake's segments, head first. */
    var segments: seq<Position>
    /** Heading of the head segment. */
    var heading: Direction
    /** Positions of the food items on the board; several may share a cell. */
    var food: seq<Position>
    /** The cell vacated by the tail in the latest movement step. */
    var lastTail: Option<Position>
    /** Growth and game-over signals sent and not yet read. */
    var pendingGrowth: nat
    var pendingGameOver: nat

    /** A snake always has a head and at least one body segment. */
    predicate Valid()
      reads this
    {
      |segments| >= 2
    }

    /**
     The state between two passes: every segment, every food and the recorded
     tail cell lie in the arena, and no game-over signal is left unread.
     */
    predicate InPlay()
      reads this
    {
      Valid() &&
      AllInBounds(segments) &&
      AllInBounds(food) &&
      (lastTail.Some? ==> InBounds(lastTail.value)) &&
      pendingGameOver == 0
    }

    /** Start-up: the start snake, no food, no recorded tail, no signals. */
    constructor ()
      ensures InPlay()
      ensures segments == [SpawnHead, SpawnBody] && heading == SpawnHeading
      ensures food == [] && lastTail == None
      ensures pendingGrowth == 0 && pendingGameOver == 0
    {
      segments := [SpawnHead, SpawnBody];
      heading := SpawnHeading;
      food := [];
      lastTail := None;
      pendingGrowth := 0;
      pendingGameOver := 0;
    }

    /** One frame of input: accept the requested heading unless it is the reverse of the current one. */
    method Steer(keys: Keys)
      modifies this`heading
      ensures heading == Resolve(old(heading), keys)
      ensures heading != old(heading).Opposite()
    {
      var dir := Selected(keys, heading);
      if dir != heading.Opposite() {
        heading := dir;
      }
    }

    /**
     One movement step. The head steps along the heading; each other segment
     takes the cell its predecessor held before the step; the old tail cell is
     recorded. A game-over signal is sent if the new head passes the wall test,
     and another if it lands on any cell of the snake before the step, the tail
     cell included.
     */
    method Move()
      requires Valid()
      modifies this`segments, this`lastTail, this`pendingGameOver
      ensures Valid()
      ensures |segments| == |old(segments)|
      ensures segments[0] == Step(old(segments)[0], heading)
      ensures forall i :: 1 <= i < |segments| ==> segments[i] == old(segments)[i - 1]
      ensures lastTail == Some(old(segments)[|old(segments)| - 1])
      ensures pendingGameOver == old(pendingGameOver)
                                 + (if HitsWall(segments[0]) then 1 else 0)
                                 + (if segments[0] in old(segments) then 1 else 0)
    {
      var snapshot := segments;
      var head := Step(snapshot[0], heading);
      segments := segments[0 := head];
      if HitsWall(head) {
        pendingGameOver := pendingGameOver + 1;
      }
      if head in snapshot {
        pendingGameOver := pendingGameOver + 1;
      }
      var i := 1;
      while i < |snapshot|
        invariant 1 <= i <= |snapshot|
        invariant |segments| == |snapshot|
        invariant segments[0] == head
        invariant forall k :: 1 <= k < i ==> segments[k] == snapshot[k - 1]
        modifies this`segments
      {
        segments := segments[i := snapshot[i - 1]];
        i := i + 1;
      }
      lastTail := Some(snapshot[|snapshot| - 1]);
    }

    /** Eating: remove every food on the head's cell and send one growth signal for each. */
    method Eat()
      requires Valid()
      modifies this`food, this`pendingGrowth
      ensures food == Uneaten(old(food), segments[0])
      ensures pendingGrowth == old(pendingGrowth) + multiset(old(food))[segments[0]]
    {
      var head, board := segments[0], food;
      var kept := [];
      var i := 0;
      while i < |board|
        invariant 0 <= i <= |board|
        invariant kept == Uneaten(board[..i], head)
        invariant pendingGrowth == old(pendingGrowth) + multiset(board[..i])[head]
        modifies this`pendingGrowth
      {
        UneatenPrefix(board, i, head);
        if board[i] == head {
          pendingGrowth := pendingGrowth + 1;
        } else {
          kept := kept + [board[i]];
        }
        i := i + 1;
      }
      assert board[..i] == board;
      food := kept;
    }

    /**
     Growth: read one growth signal, if any, and append one segment at the
     recorded tail cell; further signals stay queued for later passes.
     */
    method Grow()
      requires Valid()
      requires pendingGrowth > 0 ==> lastTail.Some?
      modifies this`segments, this`pendingGrowth
      ensures Valid()
      ensures old(pendingGrowth) > 0 ==>
                segments == old(segments) + [lastTail.value] && pendingGrowth == old(pendingGrowth) - 1
      ensures old(pendingGrowth) == 0 ==> segments == old(segments) && pendingGrowth == 0
    {
      if pendingGrowth > 0 {
        pendingGrowth := pendingGrowth - 1;
        segments := segments + [lastTail.value];
      }
    }

    /**
     Game over: read one game-over signal, if any, then remove every food and
     every segment and spawn the start snake again. The recorded tail cell and
     the growth signals are left as they are.
     */
    method GameOver()
      modifies this`segments, this`heading, this`food, this`pendingGameOver
      ensures old(pendingGameOver) > 0 ==>
                segments == [SpawnHead, SpawnBody] && heading == SpawnHeading && food == []
                && pendingGameOver == old(pendingGameOver) - 1
      ensures old(pendingGameOver) == 0 ==>
                segments == old(segments) && heading == old(heading) && food == old(food)
                && pendingGameOver == 0
    {
      if pendingGameOver > 0 {
        pendingGameOver := pendingGameOver - 1;
        food := [];
        segments := [SpawnHead, SpawnBody];
        heading := SpawnHeading;
      }
    }

    /** Food placement at a cell drawn by the caller inside the arena. */
    method SpawnFood(p: Position)
      requires InBounds(p)
      modifies this`food
      ensures food == old(food) + [p]
      ensures InPlay() == old(InPlay())
    {
      food := food + [p];
    }

    /**
     The chain of systems ordered after one another: movement, then eating,
     then growth. From a state in play, one game-over signal is pending
     afterwards exactly when the new head collides; the food under the new
     head is gone; and the snake has moved and grown by at most one segment at
     the old tail cell, which keeps it in the arena with its head on a cell no
     other segment holds unless it collided.
     */
    method MoveAndFeed()
      requires InPlay()
      modifies this`segments, this`lastTail, this`pendingGameOver, this`food, this`pendingGrowth
      ensures Valid() && AllInBounds(food)
      ensures var h := Step(old(segments)[0], heading);
              var eaten := multiset(old(food))[h];
              var grows := old(pendingGrowth) + eaten > 0;
              && pendingGameOver == (if Collides(old(segments), h) then 1 else 0)
              && food == Uneaten(old(food), h)
              && pendingGrowth == old(pendingGrowth) + eaten - (if grows then 1 else 0)
              && |segments| == |old(segments)| + (if grows then 1 else 0)
              && segments[0] == h
              && (forall i :: 1 <= i < |old(segments)| ==> segments[i] == old(segments)[i - 1])
              && (grows ==> segments[|old(segments)|] == old(segments)[|old(segments)| - 1])
              && (!Collides(old(segments), h) ==> AllInBounds(segments) && h !in segments[1..])
      ensures lastTail == Some(old(segments)[|old(segments)| - 1])
    {
      ghost var s0 := segments;
      ghost var h := Step(s0[0], heading);
      assert InBounds(s0[0]) by {
        assert s0[0] in s0;
      }
      HitsWallIffOutside(h);
      assert !InBounds(h) ==> h !in s0;
      Move();
      Eat();
      Grow();
      TrailFromSnapshot(s0, segments);
      assert segments == [h] + segments[1..];
    }

    /**
     One pass in which the movement timer fires: input, the movement chain,
     then game over. From a state in play the pass ends in play, with the head
     on a cell no other segment holds; a step into the wall or the body ends in
     the start snake with no food, and any other step moves the snake, eats
     what lies under the new head and grows by at most one segment at the old
     tail cell.
     */
    method Tick(keys: Keys)
      requires InPlay()
      modifies this
      ensures InPlay()
      ensures segments[0] !in segments[1..]
      ensures lastTail == Some(old(segments)[|old(segments)| - 1])
      ensures var eaten := multiset(old(food))[Step(old(segments)[0], Resolve(old(heading), keys))];
              pendingGrowth == old(pendingGrowth) + eaten - (if old(pendingGrowth) + eaten > 0 then 1 else 0)
      ensures var d := Resolve(old(heading), keys);
              var h := Step(old(segments)[0], d);
              if Collides(old(segments), h) then
                segments == [SpawnHead, SpawnBody] && heading == SpawnHeading && food == []
              else
                var grows := old(pendingGrowth) + multiset(old(food))[h] > 0;
                heading == d &&
                food == Uneaten(old(food), h) &&
                |segments| == |old(segments)| + (if grows then 1 else 0) &&
                segments[0] == h &&
                (forall i :: 1 <= i < |old(segments)| ==> segments[i] == old(segments)[i - 1]) &&
                (grows ==> segments[|old(segments)|] == old(segments)[|old(segments)| - 1])
    {
      Steer(keys);
      MoveAndFeed();
      GameOver();
    }
  }

  /** Start-up, then one pass with no key held and a food just above the head. */
  method ScenarioFirstTickEats() {
    var g := new SnakeGame();
    g.SpawnFood(Position(3, 4));
    g.Tick(NoKeys);
    assert g.segments == [Position(3, 4), Position(3, 3), Position(3, 2)];
    assert g.food == [] && g.heading == Up && g.pendingGrowth == 0;
  }

  /** A head on the left edge heading left steps into the wall and the game restarts. */
  method ScenarioWallResets() {
    var g := new SnakeGame();
    g.segments, g.heading := [Position(0, 3), Position(1, 3)], Left;
    g.SpawnFood(Position(5, 5));
    g.Tick(NoKeys);
    assert g.segments == [SpawnHead, SpawnBody] && g.heading == Up && g.food == [];
  }

  /** Moving onto the cell the tail is about to vacate counts as a self-collision. */
  method ScenarioTailCellIsFatal() {
    var g := new SnakeGame();
    g.segments := [Position(3, 3), Position(4, 3), Position(4, 2), Position(3, 2)];
    g.heading := Down;
    g.Tick(NoKeys);
    assert g.segments == [SpawnHead, SpawnBody];
  }

  /** Holding the key of the reverse heading is ignored: the snake keeps going up. */
  method ScenarioReversalIgnored() {
    var g := new SnakeGame();
    g.Tick(Keys(false, false, true, false));
    assert g.heading == Up;
    assert g.segments == [Position(3, 4), Position(3, 3)];
  }

  /**
   Two foods on one cell: both are eaten and two growth signals are sent; the
   pass reads one of them and leaves the other queued.
   */
  method ScenarioTwoFoodsOnOneCell() {
    var g := new SnakeGame();
    var cell := Position(3, 4);
    g.food := [cell, cell];
    assert multiset(g.food)[cell] == 2;
    UneatenCounts(g.food, cell);
    g.Tick(NoKeys);
    assert g.segments == [cell, Position(3, 3), Position(3, 2)];
    assert g.food == [] && g.pendingGrowth == 1;
  }

  /** A growth signal left queued by an earlier pass grows the snake in the next pass. */
  method ScenarioQueuedGrowthNextPass() {
    var g := new SnakeGame();
    g.segments := [Position(3, 4), Position(3, 3), Position(3, 2)];
    g.lastTail, g.pendingGrowth := Some(Position(3, 2)), 1;
    g.Tick(NoKeys);
    assert g.segments == [Position(3, 5), Position(3, 4), Position(3, 3), Position(3, 2)];
    assert g.pendingGrowth == 0;
  }

  /**
   A queued growth signal is read in the next frame, which usually has no
   movement step: the second new segment goes onto the same recorded tail
   cell as the first, and the two share that cell until the snake moves.
   */
  method ScenarioQueuedGrowthIdleFrame() {
    var g := new SnakeGame();
    var cell := Position(3, 4);
    g.food := [cell, cell];
    assert multiset(g.food)[cell] == 2;
    UneatenCounts(g.food, cell);
    g.Tick(NoKeys);
    assert g.segments == [cell, Position(3, 3), Position(3, 2)];
    g.Steer(NoKeys);
    g.Eat();
    g.Grow();
    g.GameOver();
    assert g.segments == [cell, Position(3, 3), Position(3, 2), Position(3, 2)];
    assert g.pendingGrowth == 0;
  }

  /**
   The reversal test looks at one frame only. Input runs every frame and
   movement only on its timer, so two frames between two steps (Left, then
   Down) turn a snake heading up round; the next step lands on the neck and
   the game restarts.
   */
  method ScenarioTwoFrameReversal() {
    var g := new SnakeGame();
    g.Steer(Keys(true, false, false, false));
    assert g.heading == Left;
    g.Steer(Keys(false, false, true, false));
    assert g.heading == Down;
    g.MoveAndFeed();
    assert g.segments[0] == SpawnBody;
    assert g.pendingGameOver == 1;
    g.GameOver();
    assert g.segments == [SpawnHead, SpawnBody] && g.heading == SpawnHeading;
  }

  /**
   A reset keeps the recorded tail cell and any unread growth signal. The head
   runs into a body cell holding two foods: both are eaten, the pass reads one
   growth signal and resets, and the next frame, with no movement, reads the
   other and puts a third segment of the start snake on the stale tail cell.
   */
  method ScenarioStaleTailAfterReset() {
    var g := new SnakeGame();
    var cell := Position(4, 3);
    g.segments := [Position(3, 3), Position(3, 4), Position(4, 4), cell,
                   Position(5, 3), Position(6, 3), Position(7, 3)];
    g.heading := Right;
    g.food := [cell, cell];
    assert multiset(g.food)[cell] == 2;
    g.Tick(NoKeys);
    assert g.segments == [SpawnHead, SpawnBody] && g.food == [];
    assert g.lastTail == Some(Position(7, 3)) && g.pendingGrowth == 1;
    g.Steer(NoKeys);
    g.Eat();
    g.Grow();
    g.GameOver();
    assert g.segments == [SpawnHead, SpawnBody, Position(7, 3)];
  }
}
