/** The robot's drawing area and text-size limits. Both source trees define
    the same constants except the lowest y coordinate. */
module RobotConfig {
  datatype Config = Config(
    maxX: real, maxY: real, minX: real, minY: real,
    homeX: real, homeY: real,
    characterSpaceMM: real, lineSpaceMM: real,
    minHeightMM: real, maxHeightMM: real)

  /** The constants of the `src/` tree: 1000 mm of paper below the origin. */
  const LegacyConfig := Config(100.0, 0.0, 0.0, -1000.0, 0.0, 0.0, 18.0, 5.0, 4.0, 10.0)

  /** The constants of the top-level tree: 500 mm of paper below the origin. */
  const CurrentConfig := Config(100.0, 0.0, 0.0, -500.0, 0.0, 0.0, 18.0, 5.0, 4.0, 10.0)
}

/** The cursor: a 2-D write position kept inside a rectangle, advanced one
    character cell at a time and wrapped onto lower lines. */
module RobotCursor {
  import opened Errors
  import opened Coord
  import opened FontChar
  import opened RobotConfig

  /** The fixed part of a cursor, derived once from the configuration and
      the text scale. */
  datatype Layout = Layout(
    scale: real,
    home: Coord2D,
    min: Coord2D,
    max: Coord2D,
    lineSpace: real,
    characterSpace: real)

  function LayoutFor(cfg: Config, scale: real): Layout {
    var cs := cfg.characterSpaceMM * scale;
    Layout(scale,
           Coord2D(cfg.homeX, cfg.homeY),
           Coord2D(cfg.minX, cfg.minY),
           Coord2D(cfg.maxX - cs, cfg.maxY - cs),
           cs + cfg.lineSpaceMM,
           cs)
  }

  /** Where a new cursor starts writing. */
  function StartPosition(cfg: Config, scale: real): Coord2D {
    Coord2D(cfg.minX, cfg.maxY - cfg.characterSpaceMM * scale)
  }

  predicate InBounds(L: Layout, p: Coord2D) {
    L.min.x <= p.x <= L.max.x && L.min.y <= p.y <= L.max.y
  }

  /** The code every cursor operation returns for its final position. */
  function Status(L: Layout, p: Coord2D): (e: ErrorCode)
    ensures e == Success <==> InBounds(L, p)
    ensures e == Success || e == CursorOutOfBounds
  {
    if InBounds(L, p) then Success else CursorOutOfBounds
  }

  function NewlinePos(L: Layout, p: Coord2D): Coord2D {
    Coord2D(L.min.x, p.y - L.lineSpace)
  }

  function CarriageReturnPos(L: Layout, p: Coord2D): Coord2D {
    Coord2D(L.min.x, p.y)
  }

  /** `move`: the shifted position, or one newline from it when it leaves
      the bounds. */
  function MovePos(L: Layout, p: Coord2D, delta: Coord2D): Coord2D {
    var q := Add(p, delta);
    if InBounds(L, q) then q else NewlinePos(L, q)
  }

  /** `update`: a move by one character cell, then a second newline of its
      own if the move still ends out of bounds. */
  function UpdatePos(L: Layout, p: Coord2D): Coord2D {
    var q := MovePos(L, p, Coord2D(L.characterSpace, 0.0));
    if InBounds(L, q) then q else NewlinePos(L, q)
  }

  /** `testWordOverflow` for a word of `length` characters (the trailing
      delimiter included), with `length - 1` as a signed C int. */
  predicate WordOverflows(L: Layout, p: Coord2D, length: int) {
    p.x + (length - 1) as real * L.characterSpace > L.max.x
  }

  /** The position after `k` updates. */
  function UpdateIter(L: Layout, p: Coord2D, k: nat): Coord2D {
    if k == 0 then p else UpdatePos(L, UpdateIter(L, p, k - 1))
  }

  /** A layout whose spacings are those of a positive text scale. */
  predicate Spaced(L: Layout) {
    L.characterSpace >= 0.0 && L.lineSpace > 0.0
  }

  lemma LayoutSpaced(cfg: Config, scale: real)
    requires scale >= 0.0
    requires cfg.characterSpaceMM >= 0.0 && cfg.lineSpaceMM > 0.0
    ensures Spaced(LayoutFor(cfg, scale))
  {
    assert cfg.characterSpaceMM * scale >= 0.0;
  }

  /** The start position is the top-left corner of the bounds, and it is in
      bounds exactly when one character cell fits both across and down. */
  lemma StartIsTopLeft(cfg: Config, scale: real)
    ensures var L := LayoutFor(cfg, scale);
            StartPosition(cfg, scale) == Coord2D(L.min.x, L.max.y)
    ensures var cs := cfg.characterSpaceMM * scale;
            InBounds(LayoutFor(cfg, scale), StartPosition(cfg, scale))
            <==> cs <= cfg.maxX - cfg.minX && cs <= cfg.maxY - cfg.minY
  {
  }

  /** Any text height the program accepts (4 to 10 mm, scale = height / 18)
      starts in bounds, in either tree. */
  lemma StartInBoundsForAcceptedHeights(cfg: Config, height: real)
    requires cfg == LegacyConfig || cfg == CurrentConfig
    requires cfg.minHeightMM <= height <= cfg.maxHeightMM
    ensures InBounds(LayoutFor(cfg, height / cfg.characterSpaceMM),
                     StartPosition(cfg, height / cfg.characterSpaceMM))
  {
    var scale := height / cfg.characterSpaceMM;
    assert cfg.characterSpaceMM * scale == height;
    StartIsTopLeft(cfg, scale);
  }

  /** Newline and carriage return both land on the left margin; a carriage
      return before or after a newline changes nothing, and a second
      carriage return is a no-op. */
  lemma NewlineAbsorbsCarriageReturn(L: Layout, p: Coord2D)
    ensures CarriageReturnPos(L, NewlinePos(L, p)) == NewlinePos(L, p)
    ensures NewlinePos(L, CarriageReturnPos(L, p)) == NewlinePos(L, p)
    ensures CarriageReturnPos(L, CarriageReturnPos(L, p)) == CarriageReturnPos(L, p)
  {
  }

  /** A newline from an in-bounds position goes one line down at the left
      margin, and stays in bounds exactly when that line is above the floor. */
  lemma NewlineStepsDown(L: Layout, p: Coord2D)
    requires InBounds(L, p) && L.lineSpace >= 0.0
    ensures NewlinePos(L, p).y == p.y - L.lineSpace && NewlinePos(L, p).x == L.min.x
    ensures InBounds(L, NewlinePos(L, p)) <==> p.y - L.lineSpace >= L.min.y && L.min.x <= L.max.x
  {
  }

  /** A move that stays in bounds is undone by subtracting the delta;
      otherwise the cursor is at the left margin one line below the target. */
  lemma MoveShape(L: Layout, p: Coord2D, delta: Coord2D)
    ensures InBounds(L, Add(p, delta)) ==> Sub(MovePos(L, p, delta), delta) == p
    ensures !InBounds(L, Add(p, delta)) ==>
              MovePos(L, p, delta).x == L.min.x && MovePos(L, p, delta).y == p.y + delta.y - L.lineSpace
  {
    SubUndoesAdd(p, delta);
  }

  /** `update` never moves the cursor up the page. */
  lemma UpdateNeverRises(L: Layout, p: Coord2D)
    requires L.lineSpace >= 0.0
    ensures UpdatePos(L, p).y <= p.y
  {
  }

  /** While the next cell fits on the line, `update` advances exactly one
      cell to the right and stays in bounds. */
  lemma UpdateAdvances(L: Layout, p: Coord2D)
    requires InBounds(L, p) && L.characterSpace >= 0.0
    requires p.x + L.characterSpace <= L.max.x
    ensures UpdatePos(L, p) == Coord2D(p.x + L.characterSpace, p.y)
    ensures InBounds(L, UpdatePos(L, p))
  {
  }

  /** At the end of a line with room below, `update` wraps to the left margin
      of the next line. */
  lemma UpdateWraps(L: Layout, p: Coord2D)
    requires InBounds(L, p) && L.min.x <= L.max.x && L.lineSpace >= 0.0
    requires p.x + L.characterSpace > L.max.x
    requires p.y - L.lineSpace >= L.min.y
    ensures UpdatePos(L, p) == NewlinePos(L, p)
    ensures InBounds(L, UpdatePos(L, p))
  {
  }

  /** At the end of the last line, `update` applies two newlines (one inside
      the move and one of its own) and ends out of bounds. */
  lemma UpdateDoubleNewline(L: Layout, p: Coord2D)
    requires L.lineSpace >= 0.0
    requires p.x + L.characterSpace > L.max.x
    requires p.y - L.lineSpace < L.min.y
    ensures UpdatePos(L, p) == Coord2D(L.min.x, p.y - 2.0 * L.lineSpace)
    ensures !InBounds(L, UpdatePos(L, p))
  {
  }

  /** The double newline happens with the legacy constants: from (82, -990)
      at scale 1, one update lands 46 mm lower. */
  lemma DoubleNewlineExample()
    ensures var L := LayoutFor(LegacyConfig, 1.0);
            InBounds(L, Coord2D(82.0, -990.0))
            && UpdatePos(L, Coord2D(82.0, -990.0)) == Coord2D(0.0, -1036.0)
  {
    var L := LayoutFor(LegacyConfig, 1.0);
    UpdateDoubleNewline(L, Coord2D(82.0, -990.0));
  }

  /** The width of `k` character cells of width `c`. */
  function Cells(k: nat, c: real): real {
    if k == 0 then 0.0 else Cells(k - 1, c) + c
  }

  lemma {:induction false} CellsIsProduct(k: nat, c: real)
    ensures Cells(k, c) == k as real * c
  {
    if k > 0 {
      CellsIsProduct(k - 1, c);
      assert (k - 1) as real * c + c == k as real * c;
    }
  }

  lemma {:induction false} CellsNonNegative(k: nat, c: real)
    requires c >= 0.0
    ensures Cells(k, c) >= 0.0
  {
    if k > 0 {
      CellsNonNegative(k - 1, c);
    }
  }

  /** From the last cell of a line, `update` goes at least one line down. */
  lemma UpdateAtLineEnd(L: Layout, q: Coord2D)
    requires L.lineSpace >= 0.0
    requires q.x + L.characterSpace > L.max.x
    ensures UpdatePos(L, q).y <= q.y - L.lineSpace
  {
  }

  lemma {:induction false} StaysOnLine(L: Layout, p: Coord2D, k: nat)
    requires InBounds(L, p) && Spaced(L)
    requires p.x + Cells(k, L.characterSpace) <= L.max.x
    ensures UpdateIter(L, p, k) == Coord2D(p.x + Cells(k, L.characterSpace), p.y)
  {
    if k > 0 {
      var c := L.characterSpace;
      StaysOnLine(L, p, k - 1);
      CellsNonNegative(k - 1, c);
      UpdateAdvances(L, Coord2D(p.x + Cells(k - 1, c), p.y));
    }
  }

  lemma {:induction false} LeavesLine(L: Layout, p: Coord2D, k: nat)
    requires InBounds(L, p) && Spaced(L) && k >= 1
    requires p.x + Cells(k, L.characterSpace) > L.max.x
    ensures UpdateIter(L, p, k).y < p.y
  {
    var c := L.characterSpace;
    if k > 1 && p.x + Cells(k - 1, c) > L.max.x {
      LeavesLine(L, p, k - 1);
      UpdateNeverRises(L, UpdateIter(L, p, k - 1));
    } else {
      StaysOnLine(L, p, k - 1);
      UpdateAtLineEnd(L, UpdateIter(L, p, k - 1));
    }
  }

  /** `testWordOverflow` is exact: a word of `n` characters is predicted to
      overflow precisely when the `n - 1` updates after its first character
      would leave the current line. */
  lemma WordOverflowExact(L: Layout, p: Coord2D, n: nat)
    requires InBounds(L, p) && Spaced(L) && n >= 1
    ensures !WordOverflows(L, p, n) <==> UpdateIter(L, p, n - 1).y == p.y
    ensures !WordOverflows(L, p, n) ==>
              UpdateIter(L, p, n - 1) == Coord2D(p.x + (n - 1) as real * L.characterSpace, p.y)
  {
    CellsIsProduct(n - 1, L.characterSpace);
    if WordOverflows(L, p, n) {
      LeavesLine(L, p, n - 1);
    } else {
      StaysOnLine(L, p, n - 1);
    }
  }

  /** The C cursor: a position that the operations overwrite, and bounds and
      spacings fixed at construction. */
  class Cursor {
    const layout: Layout
    var position: Coord2D

    constructor (cfg: Config, scale: real)
      ensures layout == LayoutFor(cfg, scale)
      ensures position == StartPosition(cfg, scale)
    {
      layout := LayoutFor(cfg, scale);
      position := StartPosition(cfg, scale);
    }

    predicate WithinBounds()
      reads this
    {
      InBounds(layout, position)
    }

    /** Stores the position even when it is out of bounds. */
    method Set(p: Coord2D) returns (e: ErrorCode)
      modifies this
      ensures position == p
      ensures e == Status(layout, p)
    {
      position := p;
      if !WithinBounds() {
        return CursorOutOfBounds;
      }
      return Success;
    }

    method Newline() returns (e: ErrorCode)
      modifies this
      ensures position == NewlinePos(layout, old(position))
      ensures e == Status(layout, position)
    {
      var pos := Coord2D(layout.min.x, position.y - layout.lineSpace);
      var _ := Set(pos);
      if !WithinBounds() {
        return CursorOutOfBounds;
      }
      return Success;
    }

    method CarriageReturn() returns (e: ErrorCode)
      modifies this
      ensures position == CarriageReturnPos(layout, old(position))
      ensures e == Status(layout, position)
    {
      var pos := Coord2D(layout.min.x, position.y);
      var _ := Set(pos);
      if !WithinBounds() {
        return CursorOutOfBounds;
      }
      return Success;
    }

    method Move(delta: Coord2D) returns (e: ErrorCode)
      modifies this
      ensures position == MovePos(layout, old(position), delta)
      ensures e == Status(layout, position)
    {
      position := Add(position, delta);
      if !WithinBounds() {
        var _ := Newline();
      }
      if !WithinBounds() {
        return CursorOutOfBounds;
      }
      return Success;
    }

    method Update() returns (e: ErrorCode)
      modifies this
      ensures position == UpdatePos(layout, old(position))
      ensures e == Status(layout, position)
    {
      var delta := Coord2D(layout.characterSpace, 0.0);
      var _ := Move(delta);
      if !WithinBounds() {
        var _ := Newline();
      }
      if !WithinBounds() {
        return CursorOutOfBounds;
      }
      return Success;
    }

    /** `testWordOverflow` on a NUL-terminated word. */
    function TestWordOverflow(word: seq<SChar>): (b: bool)
      reads this
      ensures b == WordOverflows(layout, position, Strlen(word))
      ensures InBounds(layout, position) && Spaced(layout) && Strlen(word) >= 1 ==>
                (!b <==> UpdateIter(layout, position, Strlen(word) - 1).y == position.y)
    {
      var n := Strlen(word);
      var o := WordOverflows(layout, position, n);
      if InBounds(layout, position) && Spaced(layout) && n >= 1 then
        WordOverflowExact(layout, position, n); o
      else
        o
    }
  }
}
