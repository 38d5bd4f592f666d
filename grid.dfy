/** The playing field: a fixed 30 x 20 grid of cells, the four headings and a
    unit step from one cell to the next. */
module Grid {

  const Width: int := 30
  const Height: int := 20

  /** A cell (x, y); x grows to the right, y grows downwards. */
  type Cell = (int, int)

  /** Headings are unit displacements. */
  const Up: Cell := (0, -1)
  const Down: Cell := (0, 1)
  const Left: Cell := (-1, 0)
  const Right: Cell := (1, 0)

  predicate InBounds(c: Cell) {
    0 <= c.0 < Width && 0 <= c.1 < Height
  }

  /** Every cell of the grid. */
  function Cells(): (r: set<Cell>)
    ensures forall c :: c in r <==> InBounds(c)
  {
    Rect(Width, Height)
  }

  /** The cell reached from `c` by one step of heading `d`. */
  function Step(c: Cell, d: Cell): Cell {
    (c.0 + d.0, c.1 + d.1)
  }

  /** `d` points exactly against `e`: the two displacements cancel out. */
  predicate Opposes(d: Cell, e: Cell) {
    d.0 + e.0 == 0 && d.1 + e.1 == 0
  }

  /** One of the four headings a snake can have. */
  predicate IsHeading(d: Cell) {
    d == Up || d == Down || d == Left || d == Right
  }

  /** The heading pointing the other way. */
  function Reverse(d: Cell): Cell {
    (-d.0, -d.1)
  }

  /** A step along a heading reaches a neighbouring cell, and a step along
      the reversed heading comes back; a heading opposes exactly its
      reverse and never itself. */
  lemma StepReverses(c: Cell, d: Cell, e: Cell)
    requires IsHeading(d)
    ensures Step(c, d) != c && Step(Step(c, d), Reverse(d)) == c
    ensures Opposes(e, d) <==> e == Reverse(d)
    ensures IsHeading(Reverse(d)) && !Opposes(d, d)
  {
  }

  /** The cells with 0 <= x < w and 0 <= y < h. */
  function Rect(w: nat, h: nat): set<Cell> {
    set x, y | 0 <= x < w && 0 <= y < h :: (x, y)
  }

  /** The first `w` cells of row `y`. */
  function Row(w: nat, y: int): set<Cell> {
    set x | 0 <= x < w :: (x, y)
  }

  lemma {:induction false} RowSize(w: nat, y: int)
    ensures |Row(w, y)| == w
  {
    if w > 0 {
      RowSize(w - 1, y);
      assert Row(w, y) == Row(w - 1, y) + {(w - 1, y)};
      assert (w - 1, y) !in Row(w - 1, y);
    }
  }

  /** Row h - 1 is what Rect(w, h) adds to Rect(w, h - 1). */
  lemma RectSplit(w: nat, h: nat)
    requires h > 0
    ensures Rect(w, h) == Rect(w, h - 1) + Row(w, h - 1)
    ensures Rect(w, h - 1) !! Row(w, h - 1)
  {
    forall c | c in Rect(w, h)
      ensures c in Rect(w, h - 1) + Row(w, h - 1)
    {
      if c.1 < h - 1 {
        assert c in Rect(w, h - 1);
      } else {
        assert c in Row(w, h - 1);
      }
    }
  }

  lemma {:induction false} RectSize(w: nat, h: nat)
    ensures |Rect(w, h)| == w * h
  {
    if h > 0 {
      RectSize(w, h - 1);
      RowSize(w, h - 1);
      RectSplit(w, h);
      assert |Rect(w, h)| == w * (h - 1) + w;
    }
  }

  /** The grid has Width * Height = 600 cells. */
  lemma CellsSize()
    ensures |Cells()| == Width * Height
  {
    RectSize(Width, Height);
  }

  /** Removing `b` from `a` removes at most |b| elements. */
  lemma DiffSize(a: set<Cell>, b: set<Cell>)
    ensures |a - b| >= |a| - |b|
  {
    assert a == (a - b) + (a * b);
    assert b == (b - a) + (a * b);
  }

  /** Fewer occupied cells than the grid holds leave a free cell. */
  lemma FreeCellExists(occupied: set<Cell>)
    requires |occupied| < Width * Height
    ensures exists c :: c in Cells() && c !in occupied
  {
    CellsSize();
    DiffSize(Cells(), occupied);
    var c :| c in Cells() - occupied;
  }
}
