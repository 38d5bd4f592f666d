# Two-player snake: a verified model of the simulation step

This project models the game logic of `snake.py`: a two-player snake game on a 30 x 20
grid. Each snake is a list of cells, head first, with a heading, a pending-growth flag and
an alive flag. A match goes from the start screen to playing to game over. On every
tick both snakes move one cell. Then each snake can die by hitting the wall, its own
body, the other snake's body or the other head. If nobody dies, a snake scores by
eating the food (+10) or the timed bonus (+50). The level is one plus the leading score
divided by 50, and it sets the speed for both players. When a match ends, both final
scores go into a five-entry, descending high-score table.

Modules:

- `Grid` (`grid.dfy`): the grid's cells, the four headings, a unit step, and the proof that
  the grid has 600 cells and so always has a free cell while fewer than 600 are taken.
- `Snakes` (`snake.dfy`): the `Snake` class with its fields and its moving, steering and
  collision operations. Also value-level facts about how one move reshapes a body, and
  the death rule `Killed`.
- `Scoring` (`scoring.dfy`): points, level, speed, and the high-score table as pure
  functions, with lemmas about them.
- `Match` (`game.dfy`): the `Game` class. It holds both snakes, the scores, the food and
  bonus cells, the two bonus timers, the state, the winner and the high-score table. Its
  methods are the spawning of food and bonus, one simulation tick (`Update`), `Restart`
  and the handling of input events.

`Game.Valid()` is the invariant that every public operation keeps: the constructor,
`Update`, `Restart`, `HandleEvent` and `HandleInput`. The steps of a tick work under the
weaker `Basics()` or `Moved()` and hand `Valid()` back to `Update`. `Valid()` says:

- the level always equals `Level(score1, score2)`;
- a bonus is showing exactly when its timer is positive;
- outside the game-over screen, both snakes are alive and on the grid, neither body
  repeats a cell, the two bodies share no cell, and the food and any bonus lie on free
  cells, apart from each other.

`Update` is proved against that invariant and against an explicit description of the
tick. The description covers the moved bodies; the death flags, winner and frozen
state when someone dies; and otherwise the score gains, growth flags, food, bonus
expiry and periodic bonus spawn.

Random placement is modelled as a choice of any free cell. Where the source draws
random cells until it finds a free one, the model requires that a free cell exists.

`DoubleTurnReverses` notes one behaviour of the source, for every heading. The reversal
guard compares a request with the buffered heading, not with the heading of the last
move. So two key presses before one tick can turn a snake straight back. The model
keeps this behaviour, as the source has it.

On a full grid the placement loop never ends. The model requires room instead (see
`Match.Game.Update` under "Left out").

## Model

| member | source | states |
|---|---|---|
| `Grid.Cells` | snake.py:11-12 | the grid is exactly the cells with 0 <= x < 30 and 0 <= y < 20 |
| `Grid.Step` | snake.py:83-85 | the new head is the old head moved by the heading's displacement; `StepReverses` states what that step does |
| `Grid.Opposes` | snake.py:93-95 | a request is refused when its displacement and the current one sum to (0, 0); `StepReverses` shows that for a heading this means exactly its reverse |
| `Grid.StepReverses` | snake.py:83-95 | a step along a heading reaches another cell and the reversed heading steps back; a request opposes a heading exactly when it is that heading's reverse, which is again a heading; no heading opposes itself |
| `Grid.CellsSize` | snake.py:11-12 | the grid has 30 * 20 = 600 cells |
| `Grid.FreeCellExists` | snake.py:152-156 | when fewer than 600 cells are taken, some grid cell is free, so the retry loop can stop |
| `Snakes.CellsOf` | snake.py:146 | the set of a body's cells holds exactly the cells of the list and no more elements than the list |
| `Snakes.Advance` | snake.py:83-90 | after a move the head is the old head plus the heading; the length grows by one when growing and is kept otherwise; the rest is the old body with the tail dropped unless growing |
| `Snakes.AdvanceCells` | snake.py:87-89 | every cell of the moved body is the new head or a cell of the old body |
| `Snakes.AdvanceTail` | snake.py:87-89 | every cell behind the new head was a cell of the old body |
| `Snakes.AdvanceDistinct` | snake.py:102-103 | a body without repeated cells keeps that property through a move that does not end in self-collision |
| `Snakes.AdvanceOnGrid` | snake.py:98-100 | a body on the grid stays on it through a move that does not hit a wall |
| `Snakes.AdvanceApart` | snake.py:246-250 | two bodies without a common cell keep none through a move in which neither head lands on the other body |
| `Snakes.Killed` | snake.py:231-255 | a snake dies when its moved head is off the grid, on the rest of its own body, on the other body, or on the other head; `HeadOnRedundant` and `Match.Game.MoveAndCollide` state its properties |
| `Snakes.HeadOnRedundant` | snake.py:252-255 | the death rule with the head-on test is equivalent to wall, self or cross-body alone, because the other body includes its head |
| `Snakes.Snake.constructor` | snake.py:68-72 | a new snake sits on its spawn cell with its spawn heading, not growing, alive |
| `Snakes.Snake.Reset` | snake.py:74-78 | reset restores the single spawn cell and spawn heading, clears growth and revives |
| `Snakes.Snake.Move` | snake.py:80-90 | a live snake's body becomes its advanced body and growth is cleared; a dead snake is left unchanged; heading and alive flag are kept |
| `Snakes.Snake.SetDirection` | snake.py:92-96 | the heading becomes the request unless the request is the exact opposite of the current heading; nothing else changes |
| `Snakes.Snake.CheckWallCollision` | snake.py:98-100 | true exactly when the head is not a grid cell |
| `Snakes.Snake.CheckSelfCollision` | snake.py:102-103 | true exactly when the head cell occurs at least twice in the body |
| `Snakes.Snake.CheckCollisionWith` | snake.py:105-107 | true exactly when the head occurs anywhere in the other body, its head included |
| `Scoring.Level` | snake.py:171-173 | the level is the unique r with 50 * (r - 1) <= max(score1, score2) < 50 * r |
| `Scoring.Fps` | snake.py:168-169 | ticks per second are 10 plus 2 per level above 1; `LeaderSetsPace` and `LevelFloor` state its properties |
| `Scoring.LeaderSetsPace` | snake.py:168-173 | level and ticks per second never decrease as the leading score grows, whichever player leads |
| `Scoring.LevelFloor` | snake.py:168-173 | with non-negative scores the level is at least 1 and the speed at least 10 ticks per second |
| `Scoring.Insert` | snake.py:177 | one step of the descending sort: the value goes in front of the first entry it is at least as large as; `InsertSorted` states its properties |
| `Scoring.InsertSorted` | snake.py:177 | inserting into a descending list keeps it descending and adds exactly one occurrence of the value |
| `Scoring.SortDesc` | snake.py:177 | `sort(reverse=True)` on a list of integers; `SortDescCorrect` states its properties |
| `Scoring.SortDescCorrect` | snake.py:177 | the descending sort returns a descending permutation of its input |
| `Scoring.TopKeepsLargest` | snake.py:178 | cutting a descending list to a prefix keeps it descending; every entry dropped is at most every entry kept |
| `Scoring.WithScore` | snake.py:176-178 | the table after appending a score, sorting descending and keeping five entries; `WithScoreTopFive` states its properties |
| `Scoring.WithScoreTopFive` | snake.py:175-178 | the new table has min(5, old length + 1) entries; it is descending; it is drawn from the old entries plus the new score; every entry left out is at most every entry kept |
| `Match.Verdict` | snake.py:260-265 | the winner is Draw exactly when both died, and otherwise the player who survived |
| `Match.Steered` | snake.py:92-96 | a request that does not oppose the current heading is taken; the result is always the current heading or the request; a moving snake never comes out heading against its current heading |
| `Match.DoubleTurnReverses` | snake.py:92-96 | for every heading and every perpendicular request: the reverse alone is refused, but the perpendicular request followed by the reverse one, before one move, leaves the snake heading straight against its last move |
| `Match.Player1Heading` | snake.py:200-208 | W, S, A and D request up, down, left and right; every other key requests nothing; `KeyRoles` states its properties |
| `Match.Player2Heading` | snake.py:209-217 | the arrow keys request their own headings; every other key requests nothing; `KeyRoles` states its properties |
| `Match.Request` | snake.py:186-217 | only a key press steers, player 1 by WASD and player 2 by the arrows; `KeyRoles` states its properties |
| `Match.IsQuit` | snake.py:183-220 | closing the window or pressing Escape asks to quit; `KeyRoles` and `Match.Game.HandleEvent` state its properties |
| `Match.KeyRoles` | snake.py:183-220 | no key steers both players; a steering request is always one of the four headings; Space, Escape and closing the window steer nobody |
| `Match.SteerAll` | snake.py:182-217 | the heading after a sequence of steering requests, applied in order; `SteerAllHeading` and `Match.Game.HandleInput` state its properties |
| `Match.SteerAllHeading` | snake.py:92-96 | however a snake is steered, its heading stays one of the four headings |
| `Match.SteerQuit` | snake.py:183-185 | a trailing quit event changes no heading |
| `Match.UntilQuit` | snake.py:182-185 | the events of a frame before the first quit; `UntilQuitStops` states its properties |
| `Match.UntilQuitStops` | snake.py:182-185 | the handled events are a prefix of the frame's events with no quit among them, and they stop exactly at the first quit if there is one |
| `Match.UntilQuitAfter` | snake.py:182-185 | when the first events hold no quit, the handled events are those events followed by the handled events of the rest |
| `Match.AfterSpace` | snake.py:186-199 | the events after the first Space, the only ones that can steer when a frame starts off the playing screen; `AfterSpaceFollows` states its properties |
| `Match.AfterSpaceFollows` | snake.py:186-199 | with no Space the result is empty; otherwise it is the suffix of the events right behind their first Space |
| `Match.AfterSpaceAppend` | snake.py:186-199 | once a Space has been seen, events appended later all come after the first Space |
| `Match.AfterFirstSpace` | snake.py:186-199 | behind a list that ends with its first Space, everything appended comes after the first Space |
| `Match.QuitFrom` | snake.py:182-185 | when the first events hold no quit, a quit lies among all events exactly when it lies among the rest |
| `Match.SpaceHandled` | snake.py:186-199 | when event i - 1 is the first Space and no quit comes before it, a Space is handled, and the events handled after it are the handled events from event i on |
| `Match.NoSpaceHandled` | snake.py:186-199 | when the events up to the first quit, or all events, hold no Space, no Space is handled and nothing follows a Space; a quit lies among the events exactly when the last one looked at is a quit |
| `Match.HandledPrefix` | snake.py:182-185 | events handled up to and including the first quit, or all events when there is none, are the events before the first quit plus that quit |
| `Match.RoomFor` | snake.py:148-166 | when the bodies leave room, a grid cell exists off both bodies and off the other item |
| `Match.Game.constructor` | snake.py:111-137 | a new game is valid and on the start screen: spawn cells and headings, zero scores, level 1, no bonus, zero timers, no winner, the loaded table, food on a free cell |
| `Match.Game.AllSnakeCells` | snake.py:144-146 | the occupied set holds exactly the cells of either body |
| `Match.Game.SpawnFood` | snake.py:148-156 | the food ends on a grid cell off both snakes and off the bonus |
| `Match.Game.SpawnBonus` | snake.py:158-166 | the bonus ends on a grid cell off both snakes and off the food, with a timer of 5 * ticks per second |
| `Match.Game.UpdateLevel` | snake.py:171-173 | the level becomes `Level(score1, score2)` |
| `Match.Game.AddHighScore` | snake.py:175-178 | the table becomes `WithScore` of the old table and the score |
| `Match.Game.MoveAndCollide` | snake.py:226-255 | both bodies advance; each death flag equals the death rule on the moved bodies; with no death the moved bodies stay sound and items can lie only under a head |
| `Match.Game.EndMatch` | snake.py:257-270 | alive flags are the negated death flags; the winner is the verdict; the state is game over; both final scores go into the table, player 1 first |
| `Match.Game.Gain` | snake.py:275-300 | a head on the food earns 10 and a head on the bonus earns 50; `Match.Game.Update` and `Match.Game.Feed` use it for the score change of a tick |
| `Match.Game.EatFood` | snake.py:272-286 | a head on the food grows and gains 10; the food moves to a free cell if eaten and stays otherwise |
| `Match.Game.EatBonus` | snake.py:288-304 | a head on the bonus grows and gains 50; an eaten bonus and its timer are cleared at once; otherwise both are kept |
| `Match.Game.AgeBonus` | snake.py:306-316 | a showing bonus loses one tick and vanishes at zero; the spawn counter rises by one; with no bonus showing and the counter at 15 * ticks per second a new bonus spawns and the counter resets |
| `Match.Game.Feed` | snake.py:272-316 | a survived tick adds to each score 10 for the food and 50 for the bonus under its head, sets growth for exactly those snakes, and ages or respawns the bonus as above |
| `Match.Game.Update` | snake.py:222-316 | nothing changes outside play; otherwise both snakes move, and a death ends the match with the verdict, the table updated and scores, food and bonus untouched, while a survived tick behaves as `Feed`; the invariant is kept |
| `Match.Game.Restart` | snake.py:459-470 | both snakes are back on their spawn cells with their spawn headings; scores and timers are zero, level 1, no bonus, no winner, state playing, food on a free cell; the table is kept |
| `Match.Game.HandleEvent` | snake.py:181-220 | a key event acts by state: Space starts or restarts, WASD and the arrows steer one player each, Escape and closing the window ask to quit; nothing else changes |
| `Match.Game.HandleMatchEvent` | snake.py:183-220 | during a match an event only steers: each heading becomes `Steered` by that player's request, and the result asks to quit exactly for closing the window or Escape |
| `Match.Game.HandleMatchEvents` | snake.py:182-220 | during a match the events before the first quit are handled in order; only the two headings change, each to the steering requests applied in order; the result asks to quit exactly when some event is a quit |
| `Match.Game.HandleInput` | snake.py:182-220 | the result asks to quit exactly when some event is a quit or Escape. Only events before the first quit are handled, in order. During a match only the headings change: each is the steering requests of those events applied in order. On the start screen only the state and the headings can change. The state becomes playing exactly when a Space is handled, and the steering requests after that Space then act as during a match. On the game-over screen the state becomes playing exactly when a Space is handled. Then the round is fresh and the headings are the spawn headings steered by the requests after that Space; otherwise nothing changes |

## Left out

- Drawing, fonts, the window, the frame clock and `run`: rendering and frame pacing are I/O.
- `generate_tone` and the `.play()` calls: audio synthesis in floating point. The model has no sound cues.
- `load_high_scores` and `save_high_scores`: JSON file I/O. The constructor takes the loaded list as a parameter, `AddHighScore` does not write it anywhere, and a stored list is taken to hold integers.
- `random.randint`: any free cell may be chosen. Uniformity and the number of retries are not modelled.
- `pygame.quit` and `sys.exit`: `HandleEvent` and `HandleInput` return a quit flag instead of ending the process; polling for events is replaced by a sequence of events given by the caller.
- Match.Game.Update: it requires `HasRoom()` on every tick of a match: the moved bodies must cover fewer than 599 cells. So the model refuses any tick on which they cover 599 or more. The source runs such a tick when it places nothing, and also when it places an item and still finds the one free cell.
- Match.Game.SpawnFood and Match.Game.SpawnBonus require a free cell to exist. The source loops forever otherwise.
