/** Text to plotter commands: the text is cut into delimiter-terminated
    words, and each word is drawn character by character from the font,
    advancing a cursor that persists from word to word. */
module Gcode {
  import opened Errors
  import opened Coord
  import opened FontChar
  import opened FontData
  import opened RobotConfig
  import opened RobotCursor
  import opened Robot

  /** The strokes of each character the font defines. */
  type FontView = map<SChar, seq<Stroke>>

  const SPACE: SChar := 32
  const NEWLINE: SChar := 10
  const CARRIAGE_RETURN: SChar := 13

  predicate IsDelimiter(c: SChar) {
    c == SPACE || c == NEWLINE || c == CARRIAGE_RETURN
  }

  /** The state of drawing: whether every cursor operation so far succeeded,
      where the cursor is, and the commands sent. */
  datatype Run = Run(ok: bool, pos: Coord2D, out: seq<Command>)

  /** The commands for one glyph: one per stroke, in slot order, all relative
      to the same cursor position. */
  function GlyphCommands(pos: Coord2D, strokes: seq<Stroke>): (cs: seq<Command>)
    ensures |cs| == |strokes|
    ensures forall i | 0 <= i < |cs| :: DecodeStroke(pos, cs[i]) == strokes[i]
  {
    seq(|strokes|, i requires 0 <= i < |strokes| => StrokeCommand(pos, strokes[i]))
  }

  /** One character of `generate_gcode`, from position `p`; `out` holds only
      the commands this character sends. */
  function StepChar(L: Layout, V: FontView, p: Coord2D, c: SChar): Run {
    if c == SPACE then
      var q := UpdatePos(L, p); Run(InBounds(L, q), q, [])
    else if c == NEWLINE then
      var q := NewlinePos(L, p); Run(InBounds(L, q), q, [])
    else if c == CARRIAGE_RETURN then
      var q := CarriageReturnPos(L, p); Run(InBounds(L, q), q, [])
    else if c !in V then
      Run(true, p, [])
    else
      var q := UpdatePos(L, p); Run(InBounds(L, q), q, GlyphCommands(p, V[c]))
  }

  /** The characters of `s` in order; the first failing cursor operation
      stops the run. */
  function RunChars(L: Layout, V: FontView, r: Run, s: seq<SChar>): Run
    decreases |s|
  {
    if s == [] then r
    else
      var prev := RunChars(L, V, r, s[..|s| - 1]);
      if !prev.ok then prev
      else
        var st := StepChar(L, V, prev.pos, s[|s| - 1]);
        Run(st.ok, st.pos, prev.out + st.out)
  }

  /** `generate_gcode` on a NUL-terminated word from position `p`: a newline
      first if the word is predicted to overflow (its result ignored), then
      the characters up to the NUL. */
  function DrawWord(L: Layout, V: FontView, p: Coord2D, w: seq<SChar>): Run {
    var n := Strlen(w);
    var start := if WordOverflows(L, p, n) then NewlinePos(L, p) else p;
    RunChars(L, V, Run(true, start, []), w[..n])
  }

  /** The words in order, each from where the previous one left the cursor;
      the first failing word stops the rest. */
  function DrawWords(L: Layout, V: FontView, r: Run, ws: seq<seq<SChar>>): Run
    decreases |ws|
  {
    if ws == [] then r
    else
      var prev := DrawWords(L, V, r, ws[..|ws| - 1]);
      if !prev.ok then prev
      else
        var d := DrawWord(L, V, prev.pos, ws[|ws| - 1]);
        Run(d.ok, d.pos, prev.out + d.out)
  }

  /** The words completed so far and the characters of the word in progress. */
  datatype Segments = Segments(words: seq<seq<SChar>>, pending: seq<SChar>)

  /** The buffering of `process_text_file`: a delimiter completes the word
      in progress, delimiter included. */
  function Segment(t: seq<SChar>): Segments
    decreases |t|
  {
    if t == [] then Segments([], [])
    else
      var s := Segment(t[..|t| - 1]);
      var c := t[|t| - 1];
      if IsDelimiter(c) then Segments(s.words + [s.pending + [c]], [])
      else Segments(s.words, s.pending + [c])
  }

  /** Every word handed to `generate_gcode`: the completed words, then the
      word in progress at end of file if it is not empty. */
  function Words(t: seq<SChar>): seq<seq<SChar>> {
    var s := Segment(t);
    if s.pending == [] then s.words else s.words + [s.pending]
  }

  function Flatten(ws: seq<seq<SChar>>): seq<SChar>
    decreases |ws|
  {
    if ws == [] then [] else Flatten(ws[..|ws| - 1]) + ws[|ws| - 1]
  }

  /** A completed word: non-empty, ending in its only delimiter. */
  predicate WordShaped(w: seq<SChar>) {
    |w| > 0 && IsDelimiter(w[|w| - 1]) && forall j | 0 <= j < |w| - 1 :: !IsDelimiter(w[j])
  }

  /** No word ever reaches 255 characters before its next character is
      stored, so every write fits the 256-byte word buffer. */
  predicate WordsFit(t: seq<SChar>) {
    forall i | 0 <= i < |t| :: |Segment(t[..i]).pending| < 255
  }

  lemma FlattenSnoc(ws: seq<seq<SChar>>, w: seq<SChar>)
    ensures Flatten(ws + [w]) == Flatten(ws) + w
  {
    assert (ws + [w])[..|ws|] == ws;
  }

  /** Segmentation loses and reorders nothing: the completed words followed
      by the word in progress spell the text. */
  lemma {:induction false} SegmentRoundTrip(t: seq<SChar>)
    ensures Flatten(Segment(t).words) + Segment(t).pending == t
  {
    if t != [] {
      var u := t[..|t| - 1];
      var c := t[|t| - 1];
      SegmentRoundTrip(u);
      var s := Segment(u);
      assert t == u + [c];
      if IsDelimiter(c) {
        assert Segment(t) == Segments(s.words + [s.pending + [c]], []);
        FlattenSnoc(s.words, s.pending + [c]);
        assert Flatten(s.words) + (s.pending + [c]) == (Flatten(s.words) + s.pending) + [c];
      } else {
        assert Segment(t) == Segments(s.words, s.pending + [c]);
        assert Flatten(s.words) + (s.pending + [c]) == (Flatten(s.words) + s.pending) + [c];
      }
    }
  }

  /** Concatenating the words passed to `generate_gcode` gives the text back. */
  lemma WordsRoundTrip(t: seq<SChar>)
    ensures Flatten(Words(t)) == t
  {
    SegmentRoundTrip(t);
    var s := Segment(t);
    if s.pending != [] {
      FlattenSnoc(s.words, s.pending);
    }
  }

  /** Every completed word ends with its only delimiter, and the word in
      progress holds none. */
  lemma {:induction false} SegmentShape(t: seq<SChar>)
    ensures forall k | 0 <= k < |Segment(t).words| :: WordShaped(Segment(t).words[k])
    ensures forall j | 0 <= j < |Segment(t).pending| :: !IsDelimiter(Segment(t).pending[j])
  {
    if t != [] {
      SegmentShape(t[..|t| - 1]);
    }
  }

  /** Words seen in a prefix of the text are the first words of the text. */
  lemma {:induction false} SegmentPrefix(t: seq<SChar>, n: nat)
    requires n <= |t|
    ensures Segment(t[..n]).words <= Segment(t).words
  {
    if n < |t| {
      var u := t[..|t| - 1];
      assert u[..n] == t[..n];
      SegmentPrefix(u, n);
    } else {
      assert t[..n] == t;
    }
  }

  /** A word in progress is never longer than the buffer allows. */
  lemma PendingFits(t: seq<SChar>)
    requires WordsFit(t)
    ensures |Segment(t).pending| <= 255
  {
    if t != [] {
      assert |Segment(t[..|t| - 1]).pending| < 255;
    }
  }

  lemma AppendAssociates<T>(a: seq<T>, b: seq<T>, c: seq<T>)
    ensures (a + b) + c == a + (b + c)
  {
  }

  /** One more character: the step taken from where the prefix left off. */
  lemma RunCharsStep(L: Layout, V: FontView, r: Run, s: seq<SChar>, k: nat)
    requires k < |s| && RunChars(L, V, r, s[..k]).ok
    ensures var prev := RunChars(L, V, r, s[..k]);
            var st := StepChar(L, V, prev.pos, s[k]);
            RunChars(L, V, r, s[..k + 1]) == Run(st.ok, st.pos, prev.out + st.out)
  {
    assert s[..k + 1][..k] == s[..k];
  }

  /** One more character of the text: the segmentation step it takes. */
  lemma SegmentStep(t: seq<SChar>, n: nat)
    requires n < |t|
    ensures var s := Segment(t[..n]);
            Segment(t[..n + 1]) ==
              if IsDelimiter(t[n]) then Segments(s.words + [s.pending + [t[n]]], [])
              else Segments(s.words, s.pending + [t[n]])
  {
    assert t[..n + 1][..n] == t[..n];
  }

  /** A word that fails while reading the text decides the whole text:
      the words after it are never drawn. */
  lemma FailedWordDecides(L: Layout, V: FontView, r: Run, t: seq<SChar>, n: nat)
    requires n <= |t| && r.ok && !DrawWords(L, V, r, Segment(t[..n]).words).ok
    ensures Words(t) != []
    ensures DrawWords(L, V, r, Words(t)) == DrawWords(L, V, r, Segment(t[..n]).words)
  {
    SegmentPrefix(t, n);
    var ws := Segment(t[..n]).words;
    assert ws != [];
    assert ws <= Words(t);
    DrawWordsStops(L, V, r, ws, Words(t));
  }

  /** Reading one more character never takes back a completed word. */
  lemma WordsOnlyGrow(t: seq<SChar>, n: nat)
    requires n < |t|
    ensures Segment(t[..n]).words <= Segment(t[..n + 1]).words
  {
    SegmentPrefix(t[..n + 1], n);
    assert t[..n + 1][..n] == t[..n];
  }

  /** One more word: drawn from where the previous words left the cursor. */
  lemma DrawWordsStep(L: Layout, V: FontView, r: Run, ws: seq<seq<SChar>>, w: seq<SChar>)
    requires DrawWords(L, V, r, ws).ok
    ensures var prev := DrawWords(L, V, r, ws);
            var d := DrawWord(L, V, prev.pos, w);
            DrawWords(L, V, r, ws + [w]) == Run(d.ok, d.pos, prev.out + d.out)
  {
    assert (ws + [w])[..|ws|] == ws;
  }

  /** Running a text in two pieces is running it in one. */
  lemma {:induction false} RunCharsAppend(L: Layout, V: FontView, r: Run, s1: seq<SChar>, s2: seq<SChar>)
    ensures RunChars(L, V, r, s1 + s2) == RunChars(L, V, RunChars(L, V, r, s1), s2)
    decreases |s2|
  {
    if s2 == [] {
      assert s1 + s2 == s1;
    } else {
      var s2' := s2[..|s2| - 1];
      assert (s1 + s2)[..|s1 + s2| - 1] == s1 + s2';
      assert (s1 + s2)[|s1 + s2| - 1] == s2[|s2| - 1];
      RunCharsAppend(L, V, r, s1, s2');
    }
  }

  /** Once a cursor operation has failed, no later character does anything. */
  lemma {:induction false} FailureAbsorbs(L: Layout, V: FontView, r: Run, s: seq<SChar>)
    requires !r.ok
    ensures RunChars(L, V, r, s) == r
    decreases |s|
  {
    if s != [] {
      FailureAbsorbs(L, V, r, s[..|s| - 1]);
    }
  }

  /** The first failure ends the word: what follows it is not drawn. */
  lemma FirstErrorAborts(L: Layout, V: FontView, r: Run, s1: seq<SChar>, s2: seq<SChar>)
    requires !RunChars(L, V, r, s1).ok
    ensures RunChars(L, V, r, s1 + s2) == RunChars(L, V, r, s1)
  {
    RunCharsAppend(L, V, r, s1, s2);
    FailureAbsorbs(L, V, RunChars(L, V, r, s1), s2);
  }

  /** A character without a glyph is skipped: no command, no cursor move,
      and drawing goes on. */
  lemma UnknownCharacterSkipped(L: Layout, V: FontView, r: Run, s1: seq<SChar>, c: SChar, s2: seq<SChar>)
    requires !IsDelimiter(c) && c !in V
    ensures RunChars(L, V, r, s1 + [c] + s2) == RunChars(L, V, r, s1 + s2)
  {
    RunCharsAppend(L, V, r, s1 + [c], s2);
    RunCharsAppend(L, V, r, s1, s2);
    assert (s1 + [c])[..|s1 + [c]| - 1] == s1;
    var prev := RunChars(L, V, r, s1);
    assert prev.ok ==> prev.out + [] == prev.out;
    assert RunChars(L, V, r, s1 + [c]) == prev;
  }

  /** Commands are only ever appended. */
  lemma {:induction false} OutputOnlyGrows(L: Layout, V: FontView, r: Run, s: seq<SChar>)
    ensures r.out <= RunChars(L, V, r, s).out
    decreases |s|
  {
    if s != [] {
      OutputOnlyGrows(L, V, r, s[..|s| - 1]);
    }
  }

  /** Once a word has failed, no later word does anything. */
  lemma {:induction false} DrawWordsStops(L: Layout, V: FontView, r: Run, ws: seq<seq<SChar>>, ws': seq<seq<SChar>>)
    requires ws <= ws' && !DrawWords(L, V, r, ws).ok
    ensures DrawWords(L, V, r, ws') == DrawWords(L, V, r, ws)
    decreases |ws'|
  {
    if |ws'| > |ws| {
      assert ws <= ws'[..|ws'| - 1];
      DrawWordsStops(L, V, r, ws, ws'[..|ws'| - 1]);
    } else {
      assert ws == ws';
    }
  }

  /** The terminating NUL the buffer adds does not change what is drawn. */
  lemma DrawWordTerminated(L: Layout, V: FontView, p: Coord2D, w: seq<SChar>)
    ensures DrawWord(L, V, p, w + [0]) == DrawWord(L, V, p, w)
  {
    StrlenTerminated(w);
    assert (w + [0])[..Strlen(w)] == w[..Strlen(w)];
  }

  /** A word that fits the line is drawn from the cursor's own position. */
  lemma FittingWordStartsInPlace(L: Layout, V: FontView, p: Coord2D, w: seq<SChar>)
    requires !WordOverflows(L, p, Strlen(w))
    ensures DrawWord(L, V, p, w) == RunChars(L, V, Run(true, p, []), w[..Strlen(w)])
  {
  }

  /** With the `src/` constants at scale 1, the word "AA" from (82, -990) is
      predicted to overflow. The newline before it lands below the floor and
      its failure is ignored, so the first stroke of `A` is still sent, to a
      target outside the drawing area; only the update after it fails. */
  lemma StrokeSentOutOfBounds()
    ensures var L := LayoutFor(LegacyConfig, 1.0);
            var V: FontView := map[65 := [Stroke(Coord2D(1.0, 1.0), true)]];
            var d := DrawWord(L, V, Coord2D(82.0, -990.0), [65, 65]);
            && InBounds(L, Coord2D(82.0, -990.0))
            && !d.ok && |d.out| == 1
            && d.out[0].target == Coord2D(1.0, -1012.0)
            && !InBounds(L, d.out[0].target)
  {
    var L := LayoutFor(LegacyConfig, 1.0);
    var V: FontView := map[65 := [Stroke(Coord2D(1.0, 1.0), true)]];
    var w: seq<SChar> := [65, 65];
    assert Strlen(w) == 2 by { StrlenUnique(w, 2); }
    assert w[..2] == w && w[..2][..1] == [65] && [65][..0] == [];
    var r0 := Run(true, Coord2D(0.0, -1013.0), []);
    assert RunChars(L, V, r0, [65]) == Run(false, Coord2D(0.0, -1059.0), GlyphCommands(r0.pos, V[65]));
    FailureAbsorbs(L, V, RunChars(L, V, r0, [65]), [65]);
    FirstErrorAborts(L, V, r0, [65], [65]);
    assert [65] + [65] == w;
  }

  /** From the same position, a word whose characters have no glyph is
      drawn successfully although the cursor ends below the floor. */
  lemma UnknownWordEndsOutOfBounds()
    ensures var L := LayoutFor(LegacyConfig, 1.0);
            var d := DrawWord(L, map[], Coord2D(82.0, -990.0), [120, 121]);
            && InBounds(L, Coord2D(82.0, -990.0))
            && d.ok && d.out == [] && d.pos == Coord2D(0.0, -1013.0)
            && !InBounds(L, d.pos)
  {
    var L := LayoutFor(LegacyConfig, 1.0);
    var w: seq<SChar> := [120, 121];
    assert Strlen(w) == 2 by { StrlenUnique(w, 2); }
    assert w[..2] == w && w[..2][..1] == [120] && [120][..0] == [];
  }

  /** The font of the sample text: `A` is one pen-down stroke, `B` one
      pen-up stroke. */
  const SampleFont: FontView := map[65 := [Stroke(Coord2D(1.0, 2.0), true)],
                                    66 := [Stroke(Coord2D(0.0, 1.0), false)]]

  lemma SampleSegmented()
    ensures Words([65, 32, 66]) == [[65, 32], [66]]
  {
    var t: seq<SChar> := [65, 32, 66];
    var t1: seq<SChar> := [65];
    var t2: seq<SChar> := [65, 32];
    assert t1[..0] == [];
    assert Segment(t1) == Segments([], [65]);
    assert t2[..1] == t1 && IsDelimiter(t2[1]) && t1 + [t2[1]] == t2;
    assert Segment(t2) == Segments([[65, 32]], []);
    assert t[..2] == t2 && !IsDelimiter(t[2]) && [] + [t[2]] == [66];
    assert Segment(t) == Segments([t2], [66]);
  }

  lemma SampleFirstWord()
    ensures DrawWord(LayoutFor(CurrentConfig, 1.0), SampleFont, Coord2D(0.0, -18.0), [65, 32]) ==
            Run(true, Coord2D(36.0, -18.0), [Command(DRAW, Coord2D(1.0, -16.0), "")])
  {
    var L := LayoutFor(CurrentConfig, 1.0);
    var w: seq<SChar> := [65, 32];
    assert Strlen(w) == 2 by { StrlenUnique(w, 2); }
    assert w[..2] == w && w[..1] == [65] && [65][..0] == [];
    var r0 := Run(true, Coord2D(0.0, -18.0), []);
    assert RunChars(L, SampleFont, r0, [65]) ==
           Run(true, Coord2D(18.0, -18.0), [Command(DRAW, Coord2D(1.0, -16.0), "")]);
  }

  lemma SampleSecondWord()
    ensures DrawWord(LayoutFor(CurrentConfig, 1.0), SampleFont, Coord2D(36.0, -18.0), [66]) ==
            Run(true, Coord2D(54.0, -18.0), [Command(TRAVEL, Coord2D(36.0, -17.0), "")])
  {
    var w: seq<SChar> := [66];
    assert Strlen(w) == 1 by { StrlenUnique(w, 1); }
    assert w[..1] == w && w[..0] == [];
  }

  /** A whole text from a new cursor, with the top-level constants at scale
      1: "A B" is cut into the words "A " and "B"; `A` is drawn at the start
      cell, the space and `B` each advance one 18 mm cell, and the robot is
      then sent home. */
  lemma SampleTextDrawn()
    ensures var r := DrawWords(LayoutFor(CurrentConfig, 1.0), SampleFont,
                               Run(true, StartPosition(CurrentConfig, 1.0), []), Words([65, 32, 66]));
            && Words([65, 32, 66]) == [[65, 32], [66]]
            && r.ok && r.pos == Coord2D(54.0, -18.0)
            && r.out + [HomeCommand(CurrentConfig)] ==
                 [Command(DRAW, Coord2D(1.0, -16.0), ""),
                  Command(TRAVEL, Coord2D(36.0, -17.0), ""),
                  Command(TRAVEL, Coord2D(0.0, 0.0), "Home")]
  {
    SampleSegmented();
    SampleFirstWord();
    SampleSecondWord();
    var ws: seq<seq<SChar>> := [[65, 32], [66]];
    assert ws[..1] == [[65, 32]] && ws[..1][..0] == [];
  }

  /** The program's generator: the cursor created by the first word and kept
      for every later one, and the commands sent so far. */
  class Generator {
    const cfg: Config
    var cursor: Cursor?
    var commands: seq<Command>

    constructor (cfg: Config)
      ensures this.cfg == cfg && cursor == null && commands == []
    {
      this.cfg := cfg;
      cursor := null;
      commands := [];
    }

    /** The layout the next word is drawn with. */
    ghost function NextLayout(font: FontTable): Layout
      reads this, cursor, font
    {
      if cursor == null then LayoutFor(cfg, font.fontScale) else cursor.layout
    }

    /** The position the next word starts from. */
    ghost function NextPosition(font: FontTable): Coord2D
      reads this, cursor, font
    {
      if cursor == null then StartPosition(cfg, font.fontScale) else cursor.position
    }

    /** The stroke loop of `generate_gcode`: every slot of the glyph, in
        index order, sent from the same cursor position. */
    method SendGlyph(pos: Coord2D, fontChar: Glyph)
      requires fontChar.Allocated()
      modifies this
      ensures cursor == old(cursor)
      ensures commands == old(commands) + GlyphCommands(pos, fontChar.strokes[..])
    {
      var i := 0;
      while i < fontChar.numStrokes
        invariant 0 <= i <= fontChar.numStrokes
        invariant cursor == old(cursor)
        invariant commands == old(commands) + GlyphCommands(pos, fontChar.strokes[..i])
      {
        assert fontChar.strokes[..i + 1] == fontChar.strokes[..i] + [fontChar.strokes[i]];
        commands := commands + [StrokeCommand(pos, fontChar.strokes[i])];
        i := i + 1;
      }
      assert fontChar.strokes[..i] == fontChar.strokes[..];
    }

    /** A character other than a delimiter: its glyph's strokes, then a
        cursor advance; nothing at all when the font has no glyph for it. */
    method DrawGlyph(font: FontTable, c: SChar) returns (ok: bool)
      requires cursor != null && font.Valid() && !IsDelimiter(c)
      modifies this, cursor
      ensures cursor == old(cursor)
      ensures var st := StepChar(cursor.layout, old(font.View()), old(cursor.position), c);
              ok == st.ok && cursor.position == st.pos && commands == old(commands) + st.out
    {
      var cur := cursor;
      var fontChar := font.Lookup(c);
      ViewAt(font, c);
      if fontChar == null {
        return true;
      }
      ghost var out := GlyphCommands(cur.position, fontChar.strokes[..]);
      assert out == StepChar(cur.layout, old(font.View()), cur.position, c).out;
      SendGlyph(cur.position, fontChar);
      assert commands == old(commands) + out;
      var e := cur.Update();
      return e == Success;
    }

    /** One character of the `generate_gcode` loop. */
    method DrawChar(font: FontTable, c: SChar) returns (ok: bool)
      requires cursor != null && font.Valid()
      modifies this, cursor
      ensures cursor == old(cursor)
      ensures var st := StepChar(cursor.layout, old(font.View()), old(cursor.position), c);
              ok == st.ok && cursor.position == st.pos && commands == old(commands) + st.out
    {
      var cur := cursor;
      var e := Success;
      if c == SPACE {
        e := cur.Update();
      } else if c == NEWLINE {
        e := cur.Newline();
      } else if c == CARRIAGE_RETURN {
        e := cur.CarriageReturn();
      } else {
        ok := DrawGlyph(font, c);
        return;
      }
      return e == Success;
    }

    /** The character loop of `generate_gcode`, up to the NUL. */
    method DrawChars(font: FontTable, text: seq<SChar>) returns (ok: bool)
      requires cursor != null && font.Valid()
      modifies this, cursor
      ensures cursor == old(cursor)
      ensures var r := RunChars(cursor.layout, old(font.View()), Run(true, old(cursor.position), []), text[..Strlen(text)]);
              ok == r.ok && cursor.position == r.pos && commands == old(commands) + r.out
    {
      var cur := cursor;
      ghost var L := cur.layout;
      ghost var V := font.View();
      ghost var r0 := Run(true, cur.position, []);
      ghost var out0 := commands;
      ghost var n := Strlen(text);
      var k := 0;
      while k < |text| && text[k] != 0
        invariant 0 <= k <= n
        invariant cursor == cur
        invariant font.Valid() && font.View() == V
        invariant var r := RunChars(L, V, r0, text[..k]);
                  r.ok && r.pos == cur.position && commands == out0 + r.out
      {
        ghost var prev := RunChars(L, V, r0, text[..k]);
        ghost var st := StepChar(L, V, prev.pos, text[k]);
        RunCharsStep(L, V, r0, text, k);
        ok := DrawChar(font, text[k]);
        ViewKept(font);
        assert ok == st.ok && cur.position == st.pos && commands == (out0 + prev.out) + st.out;
        AppendAssociates(out0, prev.out, st.out);
        if !ok {
          assert text[..n] == text[..k + 1] + text[k + 1..n];
          FirstErrorAborts(L, V, r0, text[..k + 1], text[k + 1..n]);
          return;
        }
        k := k + 1;
      }
      assert k == n;
      return true;
    }

    /** `generate_gcode`: draws one NUL-terminated word, creating the cursor
        from the font scale on first use. */
    method GenerateGcode(font: FontTable, text: seq<SChar>) returns (e: ErrorCode)
      requires font.Valid()
      modifies this, cursor
      ensures old(cursor) != null ==> cursor == old(cursor)
      ensures old(cursor) == null ==> fresh(cursor)
      ensures cursor != null && cursor.layout == old(NextLayout(font))
      ensures var r := DrawWord(cursor.layout, old(font.View()), old(NextPosition(font)), text);
              && cursor.position == r.pos
              && commands == old(commands) + r.out
              && e == (if r.ok then Success else CursorOutOfBounds)
    {
      ghost var L := NextLayout(font);
      ghost var p := NextPosition(font);
      if cursor == null {
        cursor := new Cursor(cfg, font.fontScale);
      }
      var cur := cursor;
      assert cur.layout == L && cur.position == p;
      if cur.TestWordOverflow(text) {
        var _ := cur.Newline();
      }
      ghost var start := if WordOverflows(L, p, Strlen(text)) then NewlinePos(L, p) else p;
      assert cur.position == start;
      ViewKept(font);
      var ok := DrawChars(font, text);
      if !ok {
        return CursorOutOfBounds;
      }
      return Success;
    }

    /** The hand-over of a buffered word to `generate_gcode`: the NUL is
        written after its `index` characters and the buffer passed on. */
    method EmitWord(font: FontTable, buff: array<SChar>, index: nat) returns (e: ErrorCode)
      requires font.Valid() && index < buff.Length
      modifies this, cursor, buff
      ensures old(cursor) != null ==> cursor == old(cursor)
      ensures old(cursor) == null ==> fresh(cursor)
      ensures buff[..index] == old(buff[..index])
      ensures cursor != null && cursor.layout == old(NextLayout(font))
      ensures var d := DrawWord(old(NextLayout(font)), old(font.View()), old(NextPosition(font)), old(buff[..index]));
              && cursor.position == d.pos
              && commands == old(commands) + d.out
              && e == (if d.ok then Success else CursorOutOfBounds)
    {
      ghost var w := buff[..index];
      buff[index] := 0;
      assert buff[..index + 1] == w + [0];
      DrawWordTerminated(NextLayout(font), font.View(), NextPosition(font), w);
      ViewKept(font);
      e := GenerateGcode(font, buff[..index + 1]);
    }

    /** `EmitWord` as one more word of the text: the run over the words so
        far is extended by the buffered word. */
    method FlushWord(font: FontTable, buff: array<SChar>, index: nat,
                     ghost L: Layout, ghost V: FontView, ghost r0: Run, ghost out0: seq<Command>,
                     ghost ws: seq<seq<SChar>>)
      returns (e: ErrorCode)
      requires font.Valid() && font.View() == V && index < buff.Length
      requires var r := DrawWords(L, V, r0, ws);
               r.ok && commands == out0 + r.out && NextLayout(font) == L && NextPosition(font) == r.pos
      modifies this, cursor, buff
      ensures old(cursor) != null ==> cursor == old(cursor)
      ensures old(cursor) == null ==> fresh(cursor)
      ensures buff[..index] == old(buff[..index])
      ensures font.Valid() && font.View() == V
      ensures var r := DrawWords(L, V, r0, ws + [old(buff[..index])]);
              && e == (if r.ok then Success else CursorOutOfBounds)
              && commands == out0 + r.out
              && cursor != null && cursor.layout == L && cursor.position == r.pos
    {
      ghost var prev := DrawWords(L, V, r0, ws);
      ghost var w := buff[..index];
      DrawWordsStep(L, V, r0, ws, w);
      e := EmitWord(font, buff, index);
      AppendAssociates(out0, prev.out, DrawWord(L, V, prev.pos, w).out);
      ViewKept(font);
    }

    /** One character of the `process_text_file` loop: it is stored in the
        word buffer, and a delimiter hands the buffered word on. */
    method BufferChar(font: FontTable, buff: array<SChar>, index: nat, t: seq<SChar>, n: nat,
                      ghost L: Layout, ghost V: FontView, ghost r0: Run, ghost out0: seq<Command>)
      returns (index': nat, e: ErrorCode)
      requires n < |t| && WordsFit(t) && buff.Length == 256
      requires font.Valid() && font.View() == V
      requires var sg := Segment(t[..n]);
               index == |sg.pending| && buff[..index] == sg.pending
      requires var sg := Segment(t[..n]);
               var r := DrawWords(L, V, r0, sg.words);
               && r.ok && commands == out0 + r.out
               && NextLayout(font) == L && NextPosition(font) == r.pos
               && (sg.words != [] ==> cursor != null)
      modifies this, cursor, buff
      ensures old(cursor) != null ==> cursor == old(cursor)
      ensures old(cursor) == null ==> cursor == null || fresh(cursor)
      ensures font.Valid() && font.View() == V
      ensures var sg := Segment(t[..n + 1]);
              var r := DrawWords(L, V, r0, sg.words);
              && e == (if r.ok then Success else CursorOutOfBounds)
              && commands == out0 + r.out
              && (sg.words == [] ==> cursor == old(cursor))
              && (sg.words != [] ==> cursor != null && cursor.layout == L && cursor.position == r.pos)
              && (r.ok ==> NextLayout(font) == L && NextPosition(font) == r.pos
                           && index' == |sg.pending| && index' <= buff.Length && buff[..index'] == sg.pending)
    {
      ghost var sg := Segment(t[..n]);
      SegmentStep(t, n);
      assert index < 255;
      var ch := t[n];
      buff[index] := ch;
      index' := index + 1;
      if ch == SPACE || ch == NEWLINE || ch == CARRIAGE_RETURN {
        ghost var w := sg.pending + [ch];
        assert buff[..index'] == w;
        ViewKept(font);
        e := FlushWord(font, buff, index', L, V, r0, out0, sg.words);
        assert Segment(t[..n + 1]).words == sg.words + [w];
        index' := 0;
      } else {
        assert buff[..index'] == sg.pending + [ch];
        assert Segment(t[..n + 1]).words == sg.words;
        ViewKept(font);
        e := Success;
      }
    }

    /** The reading loop of `process_text_file`: every character of the
        text is buffered, and every completed word drawn, unless a word
        fails first. */
    method BufferText(font: FontTable, buff: array<SChar>, t: seq<SChar>,
                      ghost L: Layout, ghost V: FontView, ghost r0: Run, ghost out0: seq<Command>)
      returns (index: nat, e: ErrorCode)
      requires WordsFit(t) && buff.Length == 256
      requires font.Valid() && font.View() == V
      requires r0.ok && r0.out == [] && commands == out0
      requires NextLayout(font) == L && NextPosition(font) == r0.pos
      modifies this, cursor, buff
      ensures old(cursor) != null ==> cursor == old(cursor)
      ensures old(cursor) == null ==> cursor == null || fresh(cursor)
      ensures font.Valid() && font.View() == V
      ensures e == Success || e == CursorOutOfBounds
      ensures e != Success ==>
                var r := DrawWords(L, V, r0, Words(t));
                && !r.ok && commands == out0 + r.out
                && Words(t) != [] && cursor != null && cursor.layout == L && cursor.position == r.pos
      ensures e == Success ==>
                var sg := Segment(t);
                var r := DrawWords(L, V, r0, sg.words);
                && r.ok && commands == out0 + r.out
                && NextLayout(font) == L && NextPosition(font) == r.pos
                && (sg.words == [] ==> cursor == old(cursor))
                && (sg.words != [] ==> cursor != null)
                && index == |sg.pending| && index <= buff.Length && buff[..index] == sg.pending
    {
      index := 0;
      var n := 0;
      while n < |t|
        invariant 0 <= n <= |t|
        invariant font.Valid() && font.View() == V
        invariant old(cursor) != null ==> cursor == old(cursor)
        invariant old(cursor) == null ==> cursor == null || fresh(cursor)
        invariant var sg := Segment(t[..n]);
                  index == |sg.pending| && index <= buff.Length && buff[..index] == sg.pending
        invariant var sg := Segment(t[..n]);
                  var r := DrawWords(L, V, r0, sg.words);
                  && r.ok && commands == out0 + r.out
                  && NextLayout(font) == L && NextPosition(font) == r.pos
                  && (sg.words == [] ==> cursor == old(cursor))
                  && (sg.words != [] ==> cursor != null)
      {
        index, e := BufferChar(font, buff, index, t, n, L, V, r0, out0);
        if e != Success {
          FailedWordDecides(L, V, r0, t, n + 1);
          return;
        }
        WordsOnlyGrow(t, n);
        n := n + 1;
      }
      assert t[..n] == t;
      e := Success;
    }

    /** `process_text_file`: reads the text, hands each completed word to
        `generate_gcode` as it ends, then the word left at end of file, and
        homes the robot once everything has been drawn. */
    method ProcessTextFile(font: FontTable?, file: Option<seq<SChar>>) returns (e: ErrorCode)
      requires font != null ==> font.Valid()
      requires file.Some? ==> WordsFit(file.value)
      modifies this, cursor
      ensures font == null ==> e == NoFontData && unchanged(this)
      ensures font != null && file.None? ==> e == NoTextFile && unchanged(this)
      ensures font != null && file.Some? ==>
                var ws := Words(file.value);
                var r := DrawWords(old(NextLayout(font)), old(font.View()), Run(true, old(NextPosition(font)), []), ws);
                && e == (if r.ok then Success else CursorOutOfBounds)
                && commands == old(commands) + r.out + (if r.ok then [HomeCommand(cfg)] else [])
                && (ws == [] ==> cursor == old(cursor))
                && (ws != [] ==> cursor != null && cursor.layout == old(NextLayout(font)) && cursor.position == r.pos)
    {
      if font == null {
        return NoFontData;
      }
      if file.None? {
        return NoTextFile;
      }
      var t := file.value;
      ghost var L := NextLayout(font);
      ghost var V := font.View();
      ghost var r0 := Run(true, NextPosition(font), []);
      ghost var out0 := commands;
      var buff := new SChar[256];
      ViewKept(font);
      var index, err := BufferText(font, buff, t, L, V, r0, out0);
      if err != Success {
        return err;
      }
      ghost var sg := Segment(t);
      if index > 0 {
        assert Words(t) == sg.words + [sg.pending];
        var err := FlushWord(font, buff, index, L, V, r0, out0, sg.words);
        if err != Success {
          return err;
        }
      } else {
        assert Words(t) == sg.words;
      }
      commands := commands + [HomeCommand(cfg)];
      return Success;
    }
  }
}
