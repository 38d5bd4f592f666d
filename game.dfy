/** The two-player match: both snakes, scores, level, food and the timed
    bonus, the high-score table, and the Start / Playing / GameOver machine
    that advances one tick at a time. */
module Match {
  import opened Grid
  import opened Snakes
  import opened Scoring

  datatype Option<T> = None | Some(value: T)

  datatype State = Start | Playing | GameOver

  datatype Winner = NoWinner | Player1 | Player2 | Draw

  /** The keys the game reacts to; every other key is OtherKey. */
  datatype Key =
    | Space | Escape
    | KeyW | KeyA | KeyS | KeyD
    | ArrowUp | ArrowDown | ArrowLeft | ArrowRight
    | OtherKey

  /** An input event: the window being closed, a key press, or anything else. */
  datatype Event = QuitEvent | KeyDown(key: Key) | OtherEvent

  /** Player 1 starts a quarter of the way across, player 2 three quarters. */
  const Spawn1: Cell := (Width / 4, Height / 2)
  const Spawn2: Cell := (3 * Width / 4, Height / 2)

  /** Seconds a bonus stays on the grid, and seconds between bonus spawns;
      both are turned into ticks at the current speed. */
  const BonusLifetime: int := 5
  const BonusInterval: int := 15

  /** The result of a match that ended with at least one death. */
  function Verdict(p1Dead: bool, p2Dead: bool): (r: Winner)
    requires p1Dead || p2Dead
    ensures r == Draw <==> p1Dead && p2Dead
    ensures r == Player1 <==> !p1Dead
    ensures r == Player2 <==> !p2Dead
  {
    if p1Dead && p2Dead then Draw else if p1Dead then Player2 else Player1
  }

  /** Player 1 steers with W, A, S, D. */
  function Player1Heading(k: Key): Option<Cell> {
    match k
    case KeyW => Some(Up)
    case KeyS => Some(Down)
    case KeyA => Some(Left)
    case KeyD => Some(Right)
    case _ => None
  }

  /** Player 2 steers with the arrow keys. */
  function Player2Heading(k: Key): Option<Cell> {
    match k
    case ArrowUp => Some(Up)
    case ArrowDown => Some(Down)
    case ArrowLeft => Some(Left)
    case ArrowRight => Some(Right)
    case _ => None
  }

  /** Closing the window or pressing Escape ends the program in every state. */
  predicate IsQuit(e: Event) {
    e == QuitEvent || e == KeyDown(Escape)
  }

  /** The heading after a steering request: the request is taken unless it
      points straight back, so a moving snake never reverses in one turn. */
  function Steered(current: Cell, request: Option<Cell>): (r: Cell)
    ensures request.Some? && !Opposes(request.value, current) ==> r == request.value
    ensures r == current || request == Some(r)
    ensures current != (0, 0) ==> !Opposes(r, current)
  {
    if request.Some? && !Opposes(request.value, current) then request.value else current
  }

  /** The reversal guard compares a request with the buffered heading, not
      with the heading of the last move. A single request for the reverse
      heading is refused, but a perpendicular request followed by the
      reverse one, both before the next move, turns the snake straight back. */
  lemma DoubleTurnReverses(d: Cell, p: Cell)
    requires IsHeading(d) && IsHeading(p) && p != d && p != Reverse(d)
    ensures Steered(d, Some(Reverse(d))) == d
    ensures var r := Steered(Steered(d, Some(p)), Some(Reverse(d)));
      r == Reverse(d) && Opposes(r, d)
  {
  }

  /** The steering request an event makes of player 1, or of player 2. */
  function Request(e: Event, player1: bool): Option<Cell> {
    if !e.KeyDown? then None
    else if player1 then Player1Heading(e.key)
    else Player2Heading(e.key)
  }

  /** Every key steers at most one player, only towards one of the four
      headings, and a quit event steers nobody. */
  lemma KeyRoles(e: Event, player1: bool)
    ensures Request(e, true).None? || Request(e, false).None?
    ensures Request(e, player1).Some? ==> IsHeading(Request(e, player1).value)
    ensures IsQuit(e) || e == KeyDown(Space) ==> Request(e, player1).None?
  {
  }

  /** The heading after a snake heading `d` has seen the steering requests
      of `events`, one after the other. */
  function SteerAll(d: Cell, events: seq<Event>, player1: bool): Cell
    decreases |events|
  {
    if events == [] then d
    else Steered(SteerAll(d, events[..|events| - 1], player1), Request(events[|events| - 1], player1))
  }

  /** A snake keeps one of the four headings however it is steered. */
  lemma {:induction false} SteerAllHeading(d: Cell, events: seq<Event>, player1: bool)
    requires IsHeading(d)
    ensures IsHeading(SteerAll(d, events, player1))
  {
    if events != [] {
      SteerAllHeading(d, events[..|events| - 1], player1);
      KeyRoles(events[|events| - 1], player1);
    }
  }

  /** A quit event at the end of the events changes no heading. */
  lemma SteerQuit(d: Cell, events: seq<Event>, e: Event, player1: bool)
    requires IsQuit(e)
    ensures SteerAll(d, events + [e], player1) == SteerAll(d, events, player1)
  {
    assert (events + [e])[..|events|] == events;
  }

  /** The events after the first Space, or none when there is no Space:
      on the start and game-over screens only these steer. */
  function AfterSpace(events: seq<Event>): seq<Event>
    decreases |events|
  {
    if events == [] then []
    else
      var init := events[..|events| - 1];
      if KeyDown(Space) in init then AfterSpace(init) + [events[|events| - 1]]
      else []
  }

  /** AfterSpace is empty without a Space; otherwise it is the suffix of the
      events that follows their first Space. */
  lemma {:induction false} AfterSpaceFollows(events: seq<Event>)
    ensures var r := AfterSpace(events);
      |r| <= |events| && r == events[|events| - |r|..] &&
      (KeyDown(Space) !in events ==> r == []) &&
      (KeyDown(Space) in events ==>
        |r| < |events| && events[|events| - |r| - 1] == KeyDown(Space) &&
        KeyDown(Space) !in events[..|events| - |r| - 1])
  {
    if events != [] {
      var n := |events|;
      var init := events[..n - 1];
      AfterSpaceFollows(init);
      if KeyDown(Space) in init {
        var r0 := AfterSpace(init);
        assert AfterSpace(events) == r0 + [events[n - 1]];
        assert r0 + [events[n - 1]] == events[n - 1 - |r0|..];
        assert events[..n - 1 - |r0| - 1] == init[..n - 1 - |r0| - 1];
        assert events[n - 1 - |r0| - 1] == init[n - 1 - |r0| - 1];
      } else {
        assert AfterSpace(events) == [];
        assert events == init + [events[n - 1]];
        assert events[n..] == [];
      }
    }
  }

  /** Once a Space has been seen, the events after it are the ones after
      that first Space. */
  lemma {:induction false} AfterSpaceAppend(p: seq<Event>, t: seq<Event>)
    requires KeyDown(Space) in p
    ensures AfterSpace(p + t) == AfterSpace(p) + t
    decreases |t|
  {
    if t == [] {
      assert p + t == p;
    } else {
      var t' := t[..|t| - 1];
      AfterSpaceAppend(p, t');
      assert (p + t)[..|p + t| - 1] == p + t';
      assert t == t' + [t[|t| - 1]];
    }
  }

  /** The events of a frame that are handled: those before the first quit. */
  function UntilQuit(events: seq<Event>): seq<Event> {
    if events == [] || IsQuit(events[0]) then []
    else [events[0]] + UntilQuit(events[1..])
  }

  /** The handled events are a prefix of the events with no quit among
      them, and they stop only at a quit or at the end. */
  lemma {:induction false} UntilQuitStops(events: seq<Event>)
    ensures var r := UntilQuit(events);
      r <= events &&
      (forall k :: 0 <= k < |r| ==> !IsQuit(r[k])) &&
      (|r| < |events| ==> IsQuit(events[|r|]))
  {
    if events != [] && !IsQuit(events[0]) {
      var t := events[1..];
      UntilQuitStops(t);
      var r := UntilQuit(events);
      assert r == [events[0]] + UntilQuit(t);
      assert events == [events[0]] + t;
      forall k | 0 <= k < |r|
        ensures !IsQuit(r[k])
      {
        if k > 0 {
          assert r[k] == UntilQuit(t)[k - 1];
        }
      }
    }
  }

  /** Events without a quit among them are all handled, and handling goes
      on with the events after them. */
  lemma {:induction false} UntilQuitAfter(events: seq<Event>, i: nat)
    requires i <= |events|
    requires forall k :: 0 <= k < i ==> !IsQuit(events[k])
    ensures UntilQuit(events) == events[..i] + UntilQuit(events[i..])
  {
    if i == 0 {
      assert events[0..] == events;
    } else {
      var t := events[1..];
      assert !IsQuit(events[0]);
      forall k | 0 <= k < i - 1
        ensures !IsQuit(t[k])
      {
        assert t[k] == events[k + 1];
      }
      UntilQuitAfter(t, i - 1);
      assert t[i - 1..] == events[i..];
      assert events[..i] == [events[0]] + t[..i - 1];
    }
  }

  /** The events up to a first quit, or all of them, hold no Space: none of
      them is handled by a match. */
  lemma NoSpaceHandled(events: seq<Event>, i: nat)
    requires i <= |events|
    requires forall k :: 0 <= k < i - 1 ==> !IsQuit(events[k]) && events[k] != KeyDown(Space)
    requires i > 0 ==> events[i - 1] != KeyDown(Space)
    requires i == |events| || (i > 0 && IsQuit(events[i - 1]))
    ensures KeyDown(Space) !in UntilQuit(events) && AfterSpace(UntilQuit(events)) == []
    ensures (exists k :: 0 <= k < |events| && IsQuit(events[k])) <==> i > 0 && IsQuit(events[i - 1])
  {
    HandledPrefix(events, i);
    var r := UntilQuit(events);
    UntilQuitStops(events);
    AfterSpaceFollows(r);
    assert |r| >= i - 1;
    forall k | 0 <= k < |r|
      ensures r[k] != KeyDown(Space)
    {
      assert r[k] == events[k];
    }
  }

  /** Behind a first Space, AfterSpace gives all that follows it. */
  lemma AfterFirstSpace(p: seq<Event>, t: seq<Event>)
    requires |p| > 0 && p[|p| - 1] == KeyDown(Space) && KeyDown(Space) !in p[..|p| - 1]
    ensures AfterSpace(p + t) == t
  {
    AfterSpaceAppend(p, t);
  }

  /** Without a quit among the first i events, a quit lies among all events
      exactly when it lies among those from event i on. */
  lemma QuitFrom(events: seq<Event>, i: nat)
    requires i <= |events|
    requires forall k :: 0 <= k < i ==> !IsQuit(events[k])
    ensures (exists k :: 0 <= k < |events| && IsQuit(events[k])) <==>
            (exists k :: 0 <= k < |events[i..]| && IsQuit(events[i..][k]))
  {
    if exists k :: 0 <= k < |events| && IsQuit(events[k]) {
      var k :| 0 <= k < |events| && IsQuit(events[k]);
      assert events[i..][k - i] == events[k];
    }
  }

  /** When the first handled Space is event i - 1, the events handled after
      it are exactly those handled from event i on. */
  lemma SpaceHandled(events: seq<Event>, i: nat)
    requires 0 < i <= |events|
    requires forall k :: 0 <= k < i - 1 ==> !IsQuit(events[k]) && events[k] != KeyDown(Space)
    requires events[i - 1] == KeyDown(Space)
    ensures KeyDown(Space) in UntilQuit(events)
    ensures AfterSpace(UntilQuit(events)) == UntilQuit(events[i..])
  {
    UntilQuitAfter(events, i);
    var p := events[..i];
    assert p[..i - 1] == events[..i - 1];
    AfterFirstSpace(p, UntilQuit(events[i..]));
    assert UntilQuit(events)[i - 1] == KeyDown(Space);
  }

  /** A prefix that ends at the first quit, or covers all events when there
      is none, is the handled events, followed by that quit if any. */
  lemma HandledPrefix(events: seq<Event>, i: nat)
    requires i <= |events|
    requires forall k :: 0 <= k < i - 1 ==> !IsQuit(events[k])
    requires i == |events| || (i > 0 && IsQuit(events[i - 1]))
    ensures events[..i] == UntilQuit(events) ||
      (i > 0 && IsQuit(events[i - 1]) && events[..i] == UntilQuit(events) + [events[i - 1]])
  {
    var r := UntilQuit(events);
    UntilQuitStops(events);
    assert r == events[..|r|];
    if i > 0 && IsQuit(events[i - 1]) {
      if |r| >= i {
        assert false;
      }
      if |r| < i - 1 {
        assert false;
      }
      assert events[..i] == events[..i - 1] + [events[i - 1]];
    } else if |r| < i {
      assert false;
    }
  }

  /** There is a free cell off both bodies and off `taken` when the bodies
      leave room for it. */
  lemma RoomFor(b1: seq<Cell>, b2: seq<Cell>, taken: Cell)
    requires |b1| + |b2| + 1 < Width * Height
    ensures exists c :: c in Cells() && c !in b1 && c !in b2 && c != taken
  {
    var occupied := CellsOf(b1) + CellsOf(b2) + {taken};
    FreeCellExists(occupied);
    var c :| c in Cells() && c !in occupied;
  }

  class Game {
    const snake1: Snake
    const snake2: Snake
    var score1: int
    var score2: int
    var winner: Winner
    var food: Cell
    var bonusFood: Option<Cell>
    var bonusTimer: int
    var bonusSpawnTimer: int
    var level: int
    var state: State
    var highScores: seq<int>

    /** Facts that hold in every state. */
    ghost predicate Basics()
      reads this, snake1, snake2
    {
      snake1 != snake2 &&
      snake1.startPos == Spawn1 && snake1.startDirection == Right &&
      snake2.startPos == Spawn2 && snake2.startDirection == Left &&
      snake1.Valid() && snake2.Valid() &&
      0 <= score1 && 0 <= score2 && level == Level(score1, score2) &&
      0 <= bonusTimer && (bonusFood.None? <==> bonusTimer == 0) &&
      0 <= bonusSpawnTimer
    }

    /** Both snakes alive, each on the grid without repeated cells, and
        sharing no cell with the other. */
    ghost predicate BodiesSound()
      reads this, snake1, snake2
    {
      snake1.alive && snake2.alive &&
      Distinct(snake1.body) && Distinct(snake2.body) &&
      OnGrid(snake1.body) && OnGrid(snake2.body) &&
      Apart(snake1.body, snake2.body)
    }

    /** `c` is on the grid and off both snakes. */
    ghost predicate Free(c: Cell)
      reads this, snake1, snake2
    {
      InBounds(c) && c !in snake1.body && c !in snake2.body
    }

    /** The arena while a match can still be played: sound bodies, the food
        on a free cell, and any bonus on another free cell. */
    ghost predicate Arena()
      reads this, snake1, snake2
    {
      BodiesSound() && Free(food) &&
      (bonusFood.Some? ==> Free(bonusFood.value) && bonusFood.value != food)
    }

    ghost predicate Valid()
      reads this, snake1, snake2
    {
      Basics() && (state != GameOver ==> Arena())
    }

    /** Room on the grid for the food and the bonus after the coming move.
        Without it the random placement the game performs would never find
        a free cell. */
    ghost predicate HasRoom()
      reads this, snake1, snake2
    {
      |snake1.body| + (if snake1.grow then 1 else 0) +
      |snake2.body| + (if snake2.grow then 1 else 0) + 1 < Width * Height
    }

    /** A new match waiting on the start screen, with the high-score table
        read from storage. */
    constructor (saved: seq<int>)
      ensures Valid() && fresh(snake1) && fresh(snake2)
      ensures state == Start && winner == NoWinner && highScores == saved
      ensures score1 == 0 && score2 == 0 && level == 1
      ensures bonusFood == None && bonusTimer == 0 && bonusSpawnTimer == 0
      ensures snake1.body == [Spawn1] && snake1.direction == Right && !snake1.grow && snake1.alive
      ensures snake2.body == [Spawn2] && snake2.direction == Left && !snake2.grow && snake2.alive
    {
      snake1 := new Snake(Spawn1, Right);
      score1 := 0;
      snake2 := new Snake(Spawn2, Left);
      score2 := 0;
      winner := NoWinner;
      food := Spawn1;
      bonusFood := None;
      bonusTimer := 0;
      bonusSpawnTimer := 0;
      level := 1;
      state := Start;
      highScores := saved;
      new;
      RoomFor(snake1.body, snake2.body, food);
      SpawnFood();
    }

    /** The cells of both snakes. */
    function AllSnakeCells(): (r: set<Cell>)
      reads this, snake1, snake2
      ensures forall c :: c in r <==> c in snake1.body || c in snake2.body
      ensures |r| <= |snake1.body| + |snake2.body|
    {
      CellsOf(snake1.body) + CellsOf(snake2.body)
    }

    /** Puts the food on a cell chosen among those off both snakes and off the
        bonus. */
    method SpawnFood()
      requires exists c :: c in Cells() && c !in snake1.body && c !in snake2.body &&
                           (bonusFood.Some? ==> c != bonusFood.value)
      modifies this`food
      ensures Free(food) && (bonusFood.Some? ==> food != bonusFood.value)
    {
      var occupied := AllSnakeCells();
      if bonusFood.Some? {
        occupied := occupied + {bonusFood.value};
      }
      var pos :| pos in Cells() && pos !in occupied;
      food := pos;
    }

    /** Puts the bonus on a cell chosen among those off both snakes and off
        the food, for five seconds' worth of ticks. */
    method SpawnBonus()
      requires exists c :: c in Cells() && c !in snake1.body && c !in snake2.body && c != food
      modifies this`bonusFood, this`bonusTimer
      ensures bonusFood.Some? && Free(bonusFood.value) && bonusFood.value != food
      ensures bonusTimer == BonusLifetime * Fps(level)
    {
      var occupied := AllSnakeCells();
      occupied := occupied + {food};
      var pos :| pos in Cells() && pos !in occupied;
      bonusFood := Some(pos);
      bonusTimer := BonusLifetime * Fps(level);
    }

    method UpdateLevel()
      modifies this`level
      ensures level == Level(score1, score2)
    {
      var maxScore := Max(score1, score2);
      level := 1 + maxScore / PointsPerLevel;
    }

    /** Records a final score in the high-score table. Writing the table to
        storage is not part of this model. */
    method AddHighScore(score: int)
      modifies this`highScores
      ensures highScores == WithScore(old(highScores), score)
    {
      highScores := WithScore(highScores, score);
    }

    /** The end of a match in which at least one snake died. */
    method EndMatch(p1Dead: bool, p2Dead: bool)
      requires p1Dead || p2Dead
      requires Basics()
      modifies this`winner, this`state, this`highScores, snake1`alive, snake2`alive
      ensures Basics()
      ensures snake1.alive == !p1Dead && snake2.alive == !p2Dead
      ensures winner == Verdict(p1Dead, p2Dead) && state == GameOver
      ensures highScores == WithScore(WithScore(old(highScores), score1), score2)
    {
      snake1.alive := !p1Dead;
      snake2.alive := !p2Dead;
      winner := Verdict(p1Dead, p2Dead);
      state := GameOver;
      AddHighScore(score1);
      AddHighScore(score2);
    }

    /** Between the move and the meals of a tick that nobody died in: the
        bodies are sound, and the food and any bonus can only lie under a
        head. */
    ghost predicate Moved()
      reads this, snake1, snake2
    {
      Basics() && BodiesSound() &&
      InBounds(food) && food !in snake1.body[1..] && food !in snake2.body[1..] &&
      (bonusFood.Some? ==>
        InBounds(bonusFood.value) && bonusFood.value != food &&
        bonusFood.value !in snake1.body[1..] && bonusFood.value !in snake2.body[1..])
    }

    /** A snake whose head is on the food grows and scores 10; the food moves
        to a new free cell. Player 1 is served first. */
    method EatFood()
      requires Moved()
      requires |snake1.body| + |snake2.body| + 1 < Width * Height
      modifies this`score1, this`score2, this`level, this`food, snake1`grow, snake2`grow
      ensures Moved() && Free(food)
      ensures score1 == old(score1) + (if snake1.body[0] == old(food) then FoodPoints else 0)
      ensures score2 == old(score2) + (if snake2.body[0] == old(food) then FoodPoints else 0)
      ensures snake1.grow == (old(snake1.grow) || snake1.body[0] == old(food))
      ensures snake2.grow == (old(snake2.grow) || snake2.body[0] == old(food))
      ensures snake1.body[0] != old(food) && snake2.body[0] != old(food) ==> food == old(food)
    {
      assert snake1.body[0] in snake1.body && snake2.body[0] in snake2.body;
      if snake1.body[0] == food {
        snake1.grow := true;
        score1 := score1 + FoodPoints;
        UpdateLevel();
        RoomFor(snake1.body, snake2.body, if bonusFood.Some? then bonusFood.value else food);
        SpawnFood();
      }
      if snake2.body[0] == food {
        snake2.grow := true;
        score2 := score2 + FoodPoints;
        UpdateLevel();
        RoomFor(snake1.body, snake2.body, if bonusFood.Some? then bonusFood.value else food);
        SpawnFood();
      }
      assert snake1.body == [snake1.body[0]] + snake1.body[1..];
      assert snake2.body == [snake2.body[0]] + snake2.body[1..];
    }

    /** A snake whose head is on the bonus grows and scores 50; the bonus and
        its timer are cleared at once. Player 1 is served first. */
    method EatBonus()
      requires Moved() && Free(food)
      modifies this`score1, this`score2, this`level, this`bonusFood, this`bonusTimer,
               snake1`grow, snake2`grow
      ensures Arena() && Basics()
      ensures score1 == old(score1) + (if old(bonusFood) == Some(snake1.body[0]) then BonusPoints else 0)
      ensures score2 == old(score2) + (if old(bonusFood) == Some(snake2.body[0]) then BonusPoints else 0)
      ensures snake1.grow == (old(snake1.grow) || old(bonusFood) == Some(snake1.body[0]))
      ensures snake2.grow == (old(snake2.grow) || old(bonusFood) == Some(snake2.body[0]))
      ensures if old(bonusFood) == Some(snake1.body[0]) || old(bonusFood) == Some(snake2.body[0])
              then bonusFood == None && bonusTimer == 0
              else bonusFood == old(bonusFood) && bonusTimer == old(bonusTimer)
    {
      assert snake1.body[0] in snake1.body && snake2.body[0] in snake2.body;
      if bonusFood.Some? && snake1.body[0] == bonusFood.value {
        snake1.grow := true;
        score1 := score1 + BonusPoints;
        UpdateLevel();
        bonusFood := None;
        bonusTimer := 0;
      }
      if bonusFood.Some? && snake2.body[0] == bonusFood.value {
        snake2.grow := true;
        score2 := score2 + BonusPoints;
        UpdateLevel();
        bonusFood := None;
        bonusTimer := 0;
      }
      assert snake1.body == [snake1.body[0]] + snake1.body[1..];
      assert snake2.body == [snake2.body[0]] + snake2.body[1..];
    }

    /** The bonus loses one tick of life and vanishes at zero; every tick
        counts towards the next bonus, which appears after fifteen seconds'
        worth of ticks once no bonus is showing. */
    method AgeBonus()
      requires Basics() && Arena()
      requires |snake1.body| + |snake2.body| + 1 < Width * Height
      modifies this`bonusFood, this`bonusTimer, this`bonusSpawnTimer
      ensures Basics() && Arena()
      ensures old(bonusFood).Some? && old(bonusTimer) > 1 ==>
        bonusFood == old(bonusFood) && bonusTimer == old(bonusTimer) - 1 &&
        bonusSpawnTimer == old(bonusSpawnTimer) + 1
      ensures (old(bonusFood).None? || old(bonusTimer) <= 1) ==>
        if old(bonusSpawnTimer) + 1 >= BonusInterval * Fps(level) then
          bonusFood.Some? && bonusTimer == BonusLifetime * Fps(level) && bonusSpawnTimer == 0
        else
          bonusFood == None && bonusTimer == 0 && bonusSpawnTimer == old(bonusSpawnTimer) + 1
    {
      if bonusFood.Some? {
        bonusTimer := bonusTimer - 1;
        if bonusTimer <= 0 {
          bonusFood := None;
        }
      }
      bonusSpawnTimer := bonusSpawnTimer + 1;
      if bonusSpawnTimer >= BonusInterval * Fps(level) && bonusFood.None? {
        RoomFor(snake1.body, snake2.body, food);
        SpawnBonus();
        bonusSpawnTimer := 0;
      }
    }

    /** One tick of the simulation; it does nothing outside a running match. */
    method Update()
      requires Valid()
      requires state == Playing ==> HasRoom()
      modifies this, snake1, snake2
      ensures Valid()
      ensures old(state) != Playing ==> unchanged(this, snake1, snake2)
      ensures old(state) == Playing ==>
        snake1.body == Advance(old(snake1.body), old(snake1.direction), old(snake1.grow)) &&
        snake2.body == Advance(old(snake2.body), old(snake2.direction), old(snake2.grow)) &&
        snake1.direction == old(snake1.direction) && snake2.direction == old(snake2.direction)
      ensures old(state) == Playing && (Killed(snake1.body, snake2.body) || Killed(snake2.body, snake1.body)) ==>
        state == GameOver && winner == Verdict(Killed(snake1.body, snake2.body), Killed(snake2.body, snake1.body)) &&
        snake1.alive == !Killed(snake1.body, snake2.body) && snake2.alive == !Killed(snake2.body, snake1.body) &&
        !snake1.grow && !snake2.grow &&
        score1 == old(score1) && score2 == old(score2) && level == old(level) &&
        food == old(food) && bonusFood == old(bonusFood) &&
        bonusTimer == old(bonusTimer) && bonusSpawnTimer == old(bonusSpawnTimer) &&
        highScores == WithScore(WithScore(old(highScores), old(score1)), old(score2))
      ensures old(state) == Playing && !Killed(snake1.body, snake2.body) && !Killed(snake2.body, snake1.body) ==>
        state == Playing && winner == old(winner) && highScores == old(highScores) &&
        score1 == old(score1) + Gain(snake1.body[0], old(food), old(bonusFood)) &&
        score2 == old(score2) + Gain(snake2.body[0], old(food), old(bonusFood)) &&
        snake1.grow == (snake1.body[0] == old(food) || old(bonusFood) == Some(snake1.body[0])) &&
        snake2.grow == (snake2.body[0] == old(food) || old(bonusFood) == Some(snake2.body[0])) &&
        (snake1.body[0] != old(food) && snake2.body[0] != old(food) ==> food == old(food))
      ensures old(state) == Playing && !Killed(snake1.body, snake2.body) && !Killed(snake2.body, snake1.body) ==>
        var eaten := old(bonusFood) == Some(snake1.body[0]) || old(bonusFood) == Some(snake2.body[0]);
        var kept := old(bonusFood).Some? && !eaten && old(bonusTimer) > 1;
        (kept ==>
          bonusFood == old(bonusFood) && bonusTimer == old(bonusTimer) - 1 &&
          bonusSpawnTimer == old(bonusSpawnTimer) + 1) &&
        (!kept ==>
          if old(bonusSpawnTimer) + 1 >= BonusInterval * Fps(level) then
            bonusFood.Some? && bonusTimer == BonusLifetime * Fps(level) && bonusSpawnTimer == 0
          else
            bonusFood == None && bonusTimer == 0 && bonusSpawnTimer == old(bonusSpawnTimer) + 1)
    {
      if state != Playing {
        return;
      }
      var p1Dead, p2Dead := MoveAndCollide();
      if p1Dead || p2Dead {
        EndMatch(p1Dead, p2Dead);
        return;
      }
      Feed();
    }

    /** The rest of a tick that nobody died in: meals, then the bonus timers. */
    method Feed()
      requires Moved() && !snake1.grow && !snake2.grow
      requires |snake1.body| + |snake2.body| + 1 < Width * Height
      modifies this`score1, this`score2, this`level, this`food, this`bonusFood,
               this`bonusTimer, this`bonusSpawnTimer, snake1`grow, snake2`grow
      ensures Basics() && Arena()
      ensures score1 == old(score1) + Gain(snake1.body[0], old(food), old(bonusFood))
      ensures score2 == old(score2) + Gain(snake2.body[0], old(food), old(bonusFood))
      ensures snake1.grow == (snake1.body[0] == old(food) || old(bonusFood) == Some(snake1.body[0]))
      ensures snake2.grow == (snake2.body[0] == old(food) || old(bonusFood) == Some(snake2.body[0]))
      ensures snake1.body[0] != old(food) && snake2.body[0] != old(food) ==> food == old(food)
      ensures
        var eaten := old(bonusFood) == Some(snake1.body[0]) || old(bonusFood) == Some(snake2.body[0]);
        var kept := old(bonusFood).Some? && !eaten && old(bonusTimer) > 1;
        (kept ==>
          bonusFood == old(bonusFood) && bonusTimer == old(bonusTimer) - 1 &&
          bonusSpawnTimer == old(bonusSpawnTimer) + 1) &&
        (!kept ==>
          if old(bonusSpawnTimer) + 1 >= BonusInterval * Fps(level) then
            bonusFood.Some? && bonusTimer == BonusLifetime * Fps(level) && bonusSpawnTimer == 0
          else
            bonusFood == None && bonusTimer == 0 && bonusSpawnTimer == old(bonusSpawnTimer) + 1)
    {
      EatFood();
      EatBonus();
      AgeBonus();
    }

    /** Both snakes take a step; then each one's death is decided by the
        wall, self, cross-body and head-on tests. */
    method MoveAndCollide() returns (p1Dead: bool, p2Dead: bool)
      requires Valid() && state == Playing
      modifies snake1, snake2
      ensures Basics()
      ensures snake1.body == Advance(old(snake1.body), old(snake1.direction), old(snake1.grow))
      ensures snake2.body == Advance(old(snake2.body), old(snake2.direction), old(snake2.grow))
      ensures snake1.direction == old(snake1.direction) && snake2.direction == old(snake2.direction)
      ensures snake1.alive && snake2.alive && !snake1.grow && !snake2.grow
      ensures p1Dead == Killed(snake1.body, snake2.body) && p2Dead == Killed(snake2.body, snake1.body)
      ensures !p1Dead && !p2Dead ==> Moved()
    {
      ghost var b1, d1, g1 := snake1.body, snake1.direction, snake1.grow;
      ghost var b2, d2, g2 := snake2.body, snake2.direction, snake2.grow;
      snake1.Move();
      snake2.Move();

      p1Dead := false;
      p2Dead := false;
      if snake1.CheckWallCollision() {
        p1Dead := true;
      }
      if snake2.CheckWallCollision() {
        p2Dead := true;
      }
      if snake1.CheckSelfCollision() {
        p1Dead := true;
      }
      if snake2.CheckSelfCollision() {
        p2Dead := true;
      }
      if snake1.CheckCollisionWith(snake2) {
        p1Dead := true;
      }
      if snake2.CheckCollisionWith(snake1) {
        p2Dead := true;
      }
      if snake1.body[0] == snake2.body[0] {
        p1Dead := true;
        p2Dead := true;
      }

      if !p1Dead && !p2Dead {
        // Nobody died, so the moved bodies are sound and every cell behind a
        // new head was already occupied before the move.
        AdvanceDistinct(b1, d1, g1);
        AdvanceDistinct(b2, d2, g2);
        AdvanceOnGrid(b1, d1, g1);
        AdvanceOnGrid(b2, d2, g2);
        AdvanceApart(b1, d1, g1, b2, d2, g2);
        forall c | c in snake1.body[1..]
          ensures c in b1
        {
          AdvanceTail(b1, d1, g1, c);
        }
        forall c | c in snake2.body[1..]
          ensures c in b2
        {
          AdvanceTail(b2, d2, g2, c);
        }
      }
    }

    /** Points a head earns on a tick: 10 on the food, 50 on the bonus. */
    static function Gain(head: Cell, food: Cell, bonus: Option<Cell>): int {
      (if head == food then FoodPoints else 0) + (if bonus == Some(head) then BonusPoints else 0)
    }

    /** A match that has just begun, whatever the headings: both snakes on
        their spawn cells, scores and timers cleared, level 1, no bonus. */
    ghost predicate Restarted()
      reads this, snake1, snake2
    {
      state == Playing && winner == NoWinner &&
      score1 == 0 && score2 == 0 && level == 1 &&
      bonusFood == None && bonusTimer == 0 && bonusSpawnTimer == 0 &&
      snake1.body == [Spawn1] && !snake1.grow && snake1.alive &&
      snake2.body == [Spawn2] && !snake2.grow && snake2.alive
    }

    /** A match that has just begun, with both snakes on their spawn headings. */
    ghost predicate FreshRound()
      reads this, snake1, snake2
    {
      Restarted() && snake1.direction == Right && snake2.direction == Left
    }

    /** Starts the next match: both snakes back at their spawn cells, scores
        and timers cleared, level 1, no bonus, new food; the high-score table
        is kept. */
    method Restart()
      requires Valid()
      modifies this, snake1, snake2
      ensures Valid() && FreshRound()
      ensures highScores == old(highScores)
    {
      snake1.Reset();
      snake2.Reset();
      score1 := 0;
      score2 := 0;
      winner := NoWinner;
      level := 1;
      bonusFood := None;
      bonusTimer := 0;
      bonusSpawnTimer := 0;
      state := Playing;
      RoomFor(snake1.body, snake2.body, food);
      SpawnFood();
    }

    /** Everything but the state and the two headings is as before. */
    twostate predicate RoundKept()
      reads this, snake1, snake2
    {
      score1 == old(score1) && score2 == old(score2) && level == old(level) &&
      winner == old(winner) && food == old(food) && bonusFood == old(bonusFood) &&
      bonusTimer == old(bonusTimer) && bonusSpawnTimer == old(bonusSpawnTimer) &&
      highScores == old(highScores) &&
      snake1.body == old(snake1.body) && snake1.grow == old(snake1.grow) &&
      snake1.alive == old(snake1.alive) &&
      snake2.body == old(snake2.body) && snake2.grow == old(snake2.grow) &&
      snake2.alive == old(snake2.alive)
    }

    /** Reacts to one input event. Space starts a match from the start screen
        and restarts one from the game-over screen; during a match W, A, S, D
        steer player 1 and the arrow keys steer player 2. Closing the window
        or pressing Escape asks to quit; leaving the program is not part of
        this model. */
    method HandleEvent(e: Event) returns (quit: bool)
      requires Valid()
      modifies this, snake1, snake2
      ensures Valid() && highScores == old(highScores)
      ensures quit <==> IsQuit(e)
      ensures quit ==> unchanged(this, snake1, snake2)
      ensures old(state) == Start ==>
        RoundKept() &&
        snake1.direction == old(snake1.direction) && snake2.direction == old(snake2.direction) &&
        state == if e == KeyDown(Space) then Playing else Start
      ensures old(state) == GameOver ==>
        if e == KeyDown(Space) then FreshRound() else unchanged(this, snake1, snake2)
      ensures old(state) != Playing && e != KeyDown(Space) ==> unchanged(this, snake1, snake2)
      ensures old(state) == Playing ==>
        RoundKept() && state == Playing &&
        snake1.direction == Steered(old(snake1.direction), Request(e, true)) &&
        snake2.direction == Steered(old(snake2.direction), Request(e, false))
    {
      if state == Playing {
        quit := HandleMatchEvent(e);
        return;
      }
      quit := false;
      if e == QuitEvent {
        quit := true;
        return;
      }
      if !e.KeyDown? {
        return;
      }
      var k := e.key;
      if state == Start {
        if k == Space {
          state := Playing;
        } else if k == Escape {
          quit := true;
        }
      } else {
        if k == Space {
          Restart();
        } else if k == Escape {
          quit := true;
        }
      }
    }

    /** Reacts to one input event during a match: W, A, S, D steer player 1,
        the arrow keys steer player 2, and closing the window or pressing
        Escape asks to quit. Only the two headings can change. */
    method HandleMatchEvent(e: Event) returns (quit: bool)
      requires Valid() && state == Playing
      modifies snake1`direction, snake2`direction
      ensures Valid()
      ensures quit <==> IsQuit(e)
      ensures snake1.direction == Steered(old(snake1.direction), Request(e, true))
      ensures snake2.direction == Steered(old(snake2.direction), Request(e, false))
    {
      quit := false;
      if e == QuitEvent {
        quit := true;
        return;
      }
      if !e.KeyDown? {
        return;
      }
      var k := e.key;
      if k == KeyW {
        snake1.SetDirection(Up);
      } else if k == KeyS {
        snake1.SetDirection(Down);
      } else if k == KeyA {
        snake1.SetDirection(Left);
      } else if k == KeyD {
        snake1.SetDirection(Right);
      } else if k == ArrowUp {
        snake2.SetDirection(Up);
      } else if k == ArrowDown {
        snake2.SetDirection(Down);
      } else if k == ArrowLeft {
        snake2.SetDirection(Left);
      } else if k == ArrowRight {
        snake2.SetDirection(Right);
      } else if k == Escape {
        quit := true;
      }
    }

    /** Handles the events of one frame in order, stopping at the first one
        that asks to quit. During a match each heading is the result of the
        handled steering requests. On the start screen and the game-over
        screen nothing changes until a Space starts the next match; the
        events after that Space are then handled as during a match. */
    method HandleInput(events: seq<Event>) returns (quit: bool)
      requires Valid()
      modifies this, snake1, snake2
      ensures Valid() && highScores == old(highScores)
      ensures quit <==> exists i :: 0 <= i < |events| && IsQuit(events[i])
      ensures old(state) == Playing ==>
        RoundKept() && state == Playing &&
        snake1.direction == SteerAll(old(snake1.direction), UntilQuit(events), true) &&
        snake2.direction == SteerAll(old(snake2.direction), UntilQuit(events), false)
      ensures old(state) == Start ==>
        RoundKept() && (state == Playing <==> KeyDown(Space) in UntilQuit(events)) &&
        (state != Playing ==> state == Start) &&
        snake1.direction == SteerAll(old(snake1.direction), AfterSpace(UntilQuit(events)), true) &&
        snake2.direction == SteerAll(old(snake2.direction), AfterSpace(UntilQuit(events)), false)
      ensures old(state) == GameOver ==>
        (state == Playing <==> KeyDown(Space) in UntilQuit(events)) &&
        (state != Playing ==> unchanged(this, snake1, snake2)) &&
        (state == Playing ==>
          Restarted() &&
          snake1.direction == SteerAll(Right, AfterSpace(UntilQuit(events)), true) &&
          snake2.direction == SteerAll(Left, AfterSpace(UntilQuit(events)), false))
    {
      if state == Playing {
        quit := HandleMatchEvents(events);
        return;
      }
      quit := false;
      var i := 0;
      // Off the playing screen, only a Space or a quit has an effect.
      while i < |events| && !quit && state != Playing
        invariant 0 <= i <= |events|
        invariant Valid() && highScores == old(highScores)
        invariant forall k :: 0 <= k < i - 1 ==> !IsQuit(events[k]) && events[k] != KeyDown(Space)
        invariant quit ==> i > 0 && IsQuit(events[i - 1]) && state != Playing
        invariant !quit && i > 0 ==> !IsQuit(events[i - 1])
        invariant old(state) != Playing && state != Playing ==>
          (i > 0 ==> events[i - 1] != KeyDown(Space)) && unchanged(this, snake1, snake2)
        invariant old(state) != Playing && state == Playing ==>
          i > 0 && events[i - 1] == KeyDown(Space) &&
          (old(state) == Start ==>
            RoundKept() &&
            snake1.direction == old(snake1.direction) && snake2.direction == old(snake2.direction)) &&
          (old(state) == GameOver ==> FreshRound())
      {
        quit := HandleEvent(events[i]);
        i := i + 1;
      }
      if state != Playing {
        NoSpaceHandled(events, i);
      } else {
        SpaceHandled(events, i);
        QuitFrom(events, i);
        quit := HandleMatchEvents(events[i..]);
      }
    }

    /** Handles the events of one frame in order during a match, stopping at
        the first one that asks to quit: only the two headings change. */
    method HandleMatchEvents(events: seq<Event>) returns (quit: bool)
      requires Valid() && state == Playing
      modifies snake1`direction, snake2`direction
      ensures Valid() && RoundKept() && state == Playing
      ensures quit <==> exists i :: 0 <= i < |events| && IsQuit(events[i])
      ensures snake1.direction == SteerAll(old(snake1.direction), UntilQuit(events), true)
      ensures snake2.direction == SteerAll(old(snake2.direction), UntilQuit(events), false)
    {
      quit := false;
      var i := 0;
      while i < |events| && !quit
        invariant 0 <= i <= |events|
        invariant Valid() && RoundKept() && state == Playing
        invariant quit <==> exists k :: 0 <= k < i && IsQuit(events[k])
        invariant forall k :: 0 <= k < i - 1 ==> !IsQuit(events[k])
        invariant quit ==> i > 0 && IsQuit(events[i - 1])
        invariant snake1.direction == SteerAll(old(snake1.direction), events[..i], true)
        invariant snake2.direction == SteerAll(old(snake2.direction), events[..i], false)
      {
        assert events[..i + 1] == events[..i] + [events[i]];
        assert events[..i + 1][..i] == events[..i];
        quit := HandleMatchEvent(events[i]);
        i := i + 1;
      }
      HandledPrefix(events, i);
      if i > 0 && IsQuit(events[i - 1]) && events[..i] == UntilQuit(events) + [events[i - 1]] {
        SteerQuit(old(snake1.direction), UntilQuit(events), events[i - 1], true);
        SteerQuit(old(snake2.direction), UntilQuit(events), events[i - 1], false);
      }
    }
  }
}
