/** A snake: its body (head first), its heading, a pending-growth flag and
    whether it is still alive; plus facts about how one move reshapes a body. */
module Snakes {
  import opened Grid

  /** The set of cells a body occupies. */
  function CellsOf(body: seq<Cell>): (r: set<Cell>)
    ensures forall c :: c in r <==> c in body
    ensures |r| <= |body|
  {
    if body == [] then {} else {body[0]} + CellsOf(body[1..])
  }

  /** No cell occurs twice in the body. */
  predicate Distinct(body: seq<Cell>) {
    forall i, j :: 0 <= i < j < |body| ==> body[i] != body[j]
  }

  /** Every cell of the body lies on the grid. */
  predicate OnGrid(body: seq<Cell>) {
    forall i :: 0 <= i < |body| ==> InBounds(body[i])
  }

  /** The two bodies share no cell. */
  predicate Apart(body: seq<Cell>, other: seq<Cell>) {
    forall c :: c in body ==> c !in other
  }

  /** The body after one move with heading `d`: a new head one step ahead of
      the old one, and the old body behind it, losing its last cell unless the
      snake is growing. */
  function Advance(body: seq<Cell>, d: Cell, grow: bool): (r: seq<Cell>)
    requires |body| > 0
    ensures |r| == if grow then |body| + 1 else |body|
    ensures r[0] == Step(body[0], d)
    ensures r[1..] == body[..|r| - 1]
  {
    [Step(body[0], d)] + if grow then body else body[..|body| - 1]
  }

  /** A move adds the new head and otherwise only keeps cells of the old body. */
  lemma AdvanceCells(body: seq<Cell>, d: Cell, grow: bool, c: Cell)
    requires |body| > 0
    requires c in Advance(body, d, grow)
    ensures c == Step(body[0], d) || c in body
  {
    var r := Advance(body, d, grow);
    var i :| 0 <= i < |r| && r[i] == c;
    if i > 0 {
      assert c == r[1..][i - 1];
    }
  }

  /** A cell behind the new head was already part of the old body. */
  lemma AdvanceTail(body: seq<Cell>, d: Cell, grow: bool, c: Cell)
    requires |body| > 0
    requires c in Advance(body, d, grow)[1..]
    ensures c in body
  {
    var r := Advance(body, d, grow);
    assert c in body[..|r| - 1];
  }

  /** A body without repeated cells stays so after a move whose new head does
      not land on the rest of the body. */
  lemma AdvanceDistinct(body: seq<Cell>, d: Cell, grow: bool)
    requires |body| > 0 && Distinct(body)
    requires Advance(body, d, grow)[0] !in Advance(body, d, grow)[1..]
    ensures Distinct(Advance(body, d, grow))
  {
    var r := Advance(body, d, grow);
    forall i, j | 0 <= i < j < |r|
      ensures r[i] != r[j]
    {
      if i == 0 {
        assert r[j] == r[1..][j - 1];
      } else {
        assert r[i] == body[i - 1] && r[j] == body[j - 1];
      }
    }
  }

  /** A body on the grid stays there after a move whose new head is on it. */
  lemma AdvanceOnGrid(body: seq<Cell>, d: Cell, grow: bool)
    requires |body| > 0 && OnGrid(body)
    requires InBounds(Step(body[0], d))
    ensures OnGrid(Advance(body, d, grow))
  {
    var r := Advance(body, d, grow);
    forall i | 0 <= i < |r|
      ensures InBounds(r[i])
    {
      if i > 0 {
        assert r[i] == body[i - 1];
      }
    }
  }

  /** Two bodies that share no cell still share none after both move, when
      neither new head lands on the other moved body. */
  lemma AdvanceApart(b1: seq<Cell>, d1: Cell, g1: bool, b2: seq<Cell>, d2: Cell, g2: bool)
    requires |b1| > 0 && |b2| > 0 && Apart(b1, b2)
    requires Advance(b1, d1, g1)[0] !in Advance(b2, d2, g2)
    requires Advance(b2, d2, g2)[0] !in Advance(b1, d1, g1)
    ensures Apart(Advance(b1, d1, g1), Advance(b2, d2, g2))
  {
    var r1, r2 := Advance(b1, d1, g1), Advance(b2, d2, g2);
    forall c | c in r1
      ensures c !in r2
    {
      AdvanceCells(b1, d1, g1, c);
      if c in r2 {
        AdvanceCells(b2, d2, g2, c);
      }
    }
  }

  /** A snake with body `body` dies when its head is off the grid, on the
      rest of its own body, on the other snake's body, or on the other head. */
  predicate Killed(body: seq<Cell>, other: seq<Cell>)
    requires |body| > 0 && |other| > 0
  {
    !InBounds(body[0]) || body[0] in body[1..] || body[0] in other || body[0] == other[0]
  }

  /** The head-on test never decides a death on its own: two heads on one
      cell are already caught by the cross-body test. */
  lemma HeadOnRedundant(body: seq<Cell>, other: seq<Cell>)
    requires |body| > 0 && |other| > 0
    ensures Killed(body, other) <==> !InBounds(body[0]) || body[0] in body[1..] || body[0] in other
  {
    assert other[0] in other;
  }

  class Snake {
    const startPos: Cell
    const startDirection: Cell
    var body: seq<Cell>
    var direction: Cell
    var grow: bool
    var alive: bool

    predicate Valid()
      reads this
    {
      |body| > 0
    }

    constructor (startPos: Cell, startDirection: Cell)
      ensures this.startPos == startPos && this.startDirection == startDirection
      ensures body == [startPos] && direction == startDirection && !grow && alive
    {
      this.startPos := startPos;
      this.startDirection := startDirection;
      body := [startPos];
      direction := startDirection;
      grow := false;
      alive := true;
    }

    /** Back to the spawn cell and heading, not growing, alive. */
    method Reset()
      modifies this
      ensures body == [startPos] && direction == startDirection && !grow && alive
    {
      body := [startPos];
      direction := startDirection;
      grow := false;
      alive := true;
    }

    /** One step along the current heading; a dead snake does not move. */
    method Move()
      requires Valid()
      modifies this
      ensures Valid()
      ensures old(alive) ==> body == Advance(old(body), old(direction), old(grow)) && !grow
      ensures !old(alive) ==> body == old(body) && grow == old(grow)
      ensures direction == old(direction) && alive == old(alive)
    {
      if !alive {
        return;
      }
      var newHead := Step(body[0], direction);
      body := [newHead] + body;
      if !grow {
        body := body[..|body| - 1];
      }
      grow := false;
    }

    /** Takes heading `d` unless it points exactly against the current one. */
    method SetDirection(d: Cell)
      modifies this`direction
      ensures direction == if Opposes(d, old(direction)) then old(direction) else d
      ensures body == old(body) && grow == old(grow) && alive == old(alive)
    {
      if !Opposes(d, direction) {
        direction := d;
      }
    }

    /** The head has left the grid. */
    function CheckWallCollision(): (r: bool)
      requires Valid()
      reads this
      ensures r <==> body[0] !in Cells()
    {
      body[0].0 < 0 || body[0].0 >= Width || body[0].1 < 0 || body[0].1 >= Height
    }

    /** The head cell occurs more than once in the body. */
    function CheckSelfCollision(): (r: bool)
      requires Valid()
      reads this
      ensures r <==> multiset(body)[body[0]] > 1
    {
      assert body == [body[0]] + body[1..];
      body[0] in body[1..]
    }

    /** The head lies somewhere on `other`'s body, its head included. */
    function CheckCollisionWith(other: Snake): (r: bool)
      requires Valid()
      reads this, other
      ensures r <==> multiset(other.body)[body[0]] > 0
    {
      body[0] in other.body
    }
  }
}
