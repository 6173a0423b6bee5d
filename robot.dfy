/** The commands sent to the plotter: one per stroke, plus the homing move.
    Only the command word and the target are modelled; the text formatting
    of the coordinates and the serial transport are not. */
module Robot {
  import opened Coord
  import opened FontChar
  import opened RobotConfig
  import opened RobotCursor

  /** Spindle on (pen down) and a linear drawing move. */
  const DRAW: string := "S1000 G1"
  /** Spindle off (pen up) and a rapid travel move. */
  const TRAVEL: string := "S0 G0"

  datatype Command = Command(code: string, target: Coord2D, comment: string)

  /** `SendStoke`: the stroke vector is relative to the cursor, which the
      command leaves where it is. */
  function StrokeCommand(pos: Coord2D, stroke: Stroke): (c: Command)
    ensures c.code == DRAW <==> stroke.penDown
    ensures c.code == DRAW || c.code == TRAVEL
    ensures Sub(c.target, pos) == stroke.vec
  {
    SubUndoesAdd(stroke.vec, pos);
    AddCommutes(pos, stroke.vec);
    Command(if stroke.penDown then DRAW else TRAVEL, Add(pos, stroke.vec), "")
  }

  /** Reads a stroke back from a command issued at cursor position `pos`. */
  function DecodeStroke(pos: Coord2D, c: Command): Stroke {
    Stroke(Sub(c.target, pos), c.code == DRAW)
  }

  lemma StrokeCommandRoundTrip(pos: Coord2D, stroke: Stroke)
    ensures DecodeStroke(pos, StrokeCommand(pos, stroke)) == stroke
  {
  }

  /** `HomeRobot`: a pen-up travel to the home coordinates. */
  function HomeCommand(cfg: Config): (c: Command)
    ensures c.code == TRAVEL
    ensures c.comment == "Home"
  {
    Command(TRAVEL, Coord2D(cfg.homeX, cfg.homeY), "Home")
  }

  /** The homing move lifts the pen and ends on the cursor's home position,
      whatever the text scale. */
  lemma HomeIsCursorHome(cfg: Config, scale: real)
    ensures !DecodeStroke(Coord2D(0.0, 0.0), HomeCommand(cfg)).penDown
    ensures HomeCommand(cfg).target == LayoutFor(cfg, scale).home
  {
  }
}
