# RobotWriter text-to-stroke pipeline in Dafny

RobotWriter drives a pen plotter that writes a text file in a single-stroke
font. The font file is a list of records: a header `999 <char> <strokes>`,
then one line `<dx> <dy> <pen>` per stroke. Each record becomes a glyph
(`fontCharacter_t`), a fixed-capacity stroke buffer filled through an append
cursor. Glyphs go into a 128-bucket chained hash table (`fontData_t`), and
every stroke is then multiplied by the text scale. The text is cut into
words that each end with a space, newline or carriage return. Each word is
drawn by `generate_gcode`:

- a static cursor is created from the font scale on first use;
- the line is wrapped first when the word is predicted to overflow it;
- delimiters move the cursor;
- any other character sends one command per stroke of its glyph (target =
  cursor + stroke vector; pen down is `S1000 G1`, pen up is `S0 G0`), then
  advances the cursor one character cell.

After the last word the robot is sent home.

The repository holds two copies of this code:

- the top-level tree (`font/`, `robot/`, `misc/`);
- an older copy under `src/`.

Each piece is modelled once; where the copies differ, the model takes the
difference as a parameter:

- `RobotConfig.Config` holds the lowest y coordinate, -500 mm in the top
  level and -1000 mm in `src/`.
- `FontData.Tree` selects the error code the parser returns when the font
  file cannot be opened.

Modules, one per source unit:

- `Coord` (`coord.dfy`): `Coord2D_t` and its by-value vector operations, over `real`.
- `FontChar` (`fontchar.dfy`): signed `char` (`SChar`), the C casts, `strlen`, and the glyph, in two forms.
  - The glyph as written (`GlyphImage`, a value) keeps the program's off-by-one; see Findings.
  - The corrected glyph (`class Glyph`, over an `array`) is the one the rest of the model uses.
- `FontData` (`fontdata.dfy`): the font table as a class over an array of bucket chains.
  - Value-level definitions specify the class: `LookupIn`, `InsertInto`, `ScaleStrokes`, and `Records` (the records of a font file).
- `RobotConfig`, `RobotCursor` (`cursor.dfy`): the drawing-area constants and the cursor.
  - The cursor's position arithmetic is written as functions, and the cursor itself as a class whose methods overwrite `position`.
- `Robot` (`robot.dfy`): the command a stroke becomes and the homing command.
- `Gcode` (`gcode.dfy`): `generate_gcode` and `process_text_file` as methods of `class Generator`, which holds the static cursor and the commands sent so far.
  - Their specification is a set of pure functions: `StepChar`, `RunChars`, `DrawWord`, `DrawWords`, and `Segment`/`Words` (the segmentation of a text into words).

## Model

| member | source | states |
|---|---|---|
| Coord.SubUndoesAdd | RobotWriter/misc/coord.h:44-65 | subtracting the vector that was added gives the point back, and adding back what was subtracted does too |
| Coord.AddCommutes | RobotWriter/src/misc/coord.h:9-15 | component-wise addition (the only operation of the `src/` copy, identical to the top-level one) is commutative |
| Coord.AddAssociates | RobotWriter/misc/coord.h:44-50 | component-wise addition is associative |
| Coord.DivUndoesMul | RobotWriter/misc/coord.h:74-97 | with both divisors non-zero (the documented precondition of `DivCoord2D`), division undoes component-wise multiplication |
| Coord.ScaleIsDiagonalMul | RobotWriter/misc/coord.h:106-112 | scaling by s is component-wise multiplication by (s, s) |
| Coord.ScaleCompounds | RobotWriter/misc/coord.h:106-112 | scaling by s then t is scaling by s*t |
| FontChar.ToChar | RobotWriter/font/fontData.c:235 | `(char)id` agrees with id modulo 256 and is id itself when id fits a signed char |
| FontChar.ToUint8 | RobotWriter/font/fontData.c:235 | `(uint8_t)numStrokes` lies in 0..255, agrees with the count modulo 256, and is the count when it fits |
| FontChar.Strlen | RobotWriter/src/robot/cursor.c:38 | `strlen` is the index of the first NUL (every earlier character is non-NUL), or the whole length when there is none |
| FontChar.StrlenTerminated | RobotWriter/robot/gcode.c:104 | appending the terminating NUL to a buffered word leaves its length unchanged |
| FontChar.ConstructAsWritten | RobotWriter/font/fontChar.c:46-73 | a glyph as written has the given key and capacity, no slot written, and its append cursor at slot 1 |
| FontChar.AppendAsWritten | RobotWriter/font/fontChar.c:85-96 | an append as written is refused with OUT_OF_BOUNDS, changing nothing, exactly when `strokeIdx > numStrokes`; otherwise it writes the stroke at slot `strokeIdx`, keeps key, capacity and every other slot, and advances the `uint8_t` cursor by one modulo 256 |
| FontChar.AsWrittenAppendAll | RobotWriter/font/fontChar.c:57-93 | on a glyph as written, k <= numStrokes appends fill exactly slots 1..k in order, leave the cursor at k + 1 and keep key and capacity |
| FontChar.AsWrittenInvariant | RobotWriter/font/fontChar.c:59-93 | on a glyph as written, after any appends 1 <= strokeIdx <= numStrokes + 1, every written slot is in 1..numStrokes, and slot 0 is never written |
| FontChar.AsWrittenOverflow | RobotWriter/font/fontChar.c:60-93 | on a glyph as written, the numStrokes-th append writes slot numStrokes, outside the numStrokes-slot allocation; slot 0 is unwritten; the next append is refused with OUT_OF_BOUNDS |
| FontChar.Glyph.constructor | RobotWriter/font/fontChar.c:46-73 | a new glyph has the given key and capacity, a fresh buffer of exactly that many slots, and nothing appended (cursor at slot 0 in the corrected glyph) |
| FontChar.Glyph.AppendStroke | RobotWriter/font/fontChar.c:85-96 | refuses with OUT_OF_BOUNDS and changes nothing when the buffer is full; otherwise writes the stroke at the cursor slot, leaves every other slot alone and advances the cursor by one, so the appended strokes grow by exactly this stroke |
| FontData.Hash | RobotWriter/font/fontData.c:206-209 | the bucket `(unsigned)key % 128` is in 0..127 and is the key's residue modulo 128, negative chars included |
| FontData.FirstMatch | RobotWriter/font/fontData.c:159-169 | walking a chain from its head finds the first glyph with the key, none before it has the key, and it finds nothing exactly when no glyph of the chain has the key |
| FontData.LookupIn | RobotWriter/font/fontData.c:154-170 | lookup yields a glyph with the key from the key's bucket, and null exactly when no glyph in that bucket has the key |
| FontData.LookupAfterInsert | RobotWriter/font/fontData.c:141-168 | after an insert the new glyph's key finds the new glyph (shadowing older ones) and every other key finds what it found before |
| FontData.LookupAfterInsertAll | RobotWriter/font/fontData.c:141-144 | after inserting glyphs in order, a key finds the last glyph inserted with it, or what it found before when none was inserted |
| FontData.ScaleStrokesPointwise | RobotWriter/font/fontData.c:190-194 | scaling multiplies x and y of each stroke by the factor and keeps its pen state |
| FontData.ScaleStrokesCompounds | RobotWriter/font/fontData.c:182-197 | scaling twice compounds: by f then g is by f*g |
| FontData.Capped | RobotWriter/font/fontData.c:242-250 | a glyph keeps a prefix of the strokes appended to it: all of them when they fit its capacity, and exactly `capacity` of them otherwise |
| FontData.BodyLength | RobotWriter/font/fontData.c:242-245 | a record body consumes `numStrokes` lines, or every line left when end of file comes first, and none for a count of zero or less |
| FontData.RecordsStep | RobotWriter/font/fontData.c:229-251 | a header line followed by its body yields one record (key `(char)id`, capacity `(uint8_t)count`, the strokes that parsed, capped), followed by the records of the rest of the file |
| FontData.LastRecord | RobotWriter/font/fontData.c:229-252 | the last record of the file with a key is a record of the file with that key, and there is none exactly when no record has the key |
| FontData.FontTable.constructor | RobotWriter/font/fontData.c:97-117 | all 128 buckets are empty, so every lookup returns null; the scale is left unset |
| FontData.FontTable.Lookup | RobotWriter/font/fontData.c:154-170 | finds a glyph with the key in the key's bucket (its buffer among the table's), or null exactly when that bucket holds no glyph with the key |
| FontData.FontTable.Insert | RobotWriter/font/fontData.c:128-147 | a null glyph gives `ERROR_NULL_POINTER` and leaves the table alone; otherwise the glyph is put at the head of its bucket's chain and SUCCESS is returned |
| FontData.FontTable.ScaleGlyph | RobotWriter/font/fontData.c:190-194 | every slot of the glyph's buffer becomes the scaled stroke |
| FontData.FontTable.ScaleChain | RobotWriter/font/fontData.c:186-196 | every glyph of a chain has its whole buffer scaled |
| FontData.FontTable.Scale | RobotWriter/font/fontData.c:177-200 | records the factor, leaves the chains alone, scales every stroke of every glyph (shadowed ones included) and returns SUCCESS |
| FontData.FontTable.ReadGlyph | RobotWriter/font/fontData.c:235-250 | builds a glyph keyed `(char)id` with capacity `(uint8_t)count`, reads at most `count` lines (fewer at end of file), and appends the lines that parse as strokes, up to the capacity |
| FontData.FontTable.AddRecord | RobotWriter/font/fontData.c:232-251 | one header and its body become one new glyph, holding the file's next record, and it is inserted |
| FontData.FontTable.ParseLines | RobotWriter/font/fontData.c:229-252 | the table becomes the old table with one new glyph per record of the file inserted in file order, each holding its record; reading stops without error at the first line that is not a header |
| FontData.FontTable.Parse | RobotWriter/font/fontData.c:216-256 | no file name gives `ERROR_NULL_POINTER`; an unopenable file gives NO_FONT_DATA (OPEN_FILE in the `src/` copy) and leaves the table alone; otherwise SUCCESS with every record inserted in order |
| FontData.ParsedLookup | RobotWriter/font/fontData.c:229-252 | after a font file is parsed into an empty table, a lookup finds null exactly when no record has the key, and otherwise a glyph holding the last such record (key, capacity and strokes) |
| RobotCursor.Status | RobotWriter/src/robot/cursor.c:44-53 | every cursor operation reports SUCCESS exactly when the position is within [min, max] in both coordinates, and CURSOR_OUT_OF_BOUNDS otherwise |
| RobotCursor.LayoutSpaced | RobotWriter/src/robot/cursor.c:24-25 | a non-negative scale gives a non-negative character space and a positive line space |
| RobotCursor.StartIsTopLeft | RobotWriter/src/robot/cursor.c:15-25 | the start position is the top-left corner of the bounds, and is in bounds exactly when one character cell fits both across and down |
| RobotCursor.StartInBoundsForAcceptedHeights | RobotWriter/main.c:30-33 | every text height the program accepts (4 to 10 mm, scale = height / 18) starts the cursor in bounds, with either tree's constants |
| RobotCursor.NewlineAbsorbsCarriageReturn | RobotWriter/src/robot/cursor.c:78-95 | newline and carriage return both go to the left margin; a carriage return before or after a newline changes nothing; carriage return is idempotent |
| RobotCursor.NewlineStepsDown | RobotWriter/src/robot/cursor.c:78-86 | a newline goes one line space down at the left margin, and stays in bounds exactly when that line is above the floor |
| RobotCursor.MoveShape | RobotWriter/src/robot/cursor.c:65-76 | a move that stays in bounds is undone by subtracting the delta; otherwise exactly one newline is applied from the moved position |
| RobotCursor.UpdateNeverRises | RobotWriter/src/robot/cursor.c:98-110 | an update never moves the cursor up the page |
| RobotCursor.UpdateAdvances | RobotWriter/src/robot/cursor.c:98-110 | while the next cell fits on the line, an update moves exactly one cell right and stays in bounds |
| RobotCursor.UpdateWraps | RobotWriter/src/robot/cursor.c:98-110 | at the end of a line with room below, an update is a newline and stays in bounds |
| RobotCursor.UpdateDoubleNewline | RobotWriter/src/robot/cursor.c:100-104 | at the end of the last line an update applies two newlines (one in the move, one of its own) and ends out of bounds |
| RobotCursor.DoubleNewlineExample | RobotWriter/src/robot/cursor.c:100-104 | with the `src/` constants at scale 1, an update from (82, -990) lands at (0, -1036) |
| RobotCursor.WordOverflowExact | RobotWriter/src/robot/cursor.c:36-42 | the overflow test `x + (len - 1) * cs > max.x` holds exactly when the len - 1 updates after a word's first character would leave the line; otherwise they end len - 1 cells to the right |
| RobotCursor.Cursor.constructor | RobotWriter/src/robot/cursor.c:12-34 | bounds, spacings and home derived from the constants and the scale; position at the start position |
| RobotCursor.Cursor.Set | RobotWriter/src/robot/cursor.c:55-63 | stores the position even when out of bounds, and reports whether it is in bounds |
| RobotCursor.Cursor.Newline | RobotWriter/src/robot/cursor.c:78-86 | position becomes (min.x, y - lineSpace); status of the new position |
| RobotCursor.Cursor.CarriageReturn | RobotWriter/src/robot/cursor.c:88-96 | position becomes (min.x, y); status of the new position |
| RobotCursor.Cursor.Move | RobotWriter/src/robot/cursor.c:65-76 | position becomes the moved position, or one newline from it when that is out of bounds; status of the new position |
| RobotCursor.Cursor.Update | RobotWriter/src/robot/cursor.c:98-110 | position becomes a move by one cell followed by a second newline when still out of bounds; status of the new position |
| RobotCursor.Cursor.TestWordOverflow | RobotWriter/src/robot/cursor.c:36-42 | the test is `x + (strlen(word) - 1) * cs > max.x` on the unchanged cursor, and from an in-bounds position it is false exactly when the updates after the word's first character stay on the current line |
| Robot.StrokeCommand | RobotWriter/src/robot/robot.c:15-24 | the command is `S1000 G1` exactly when the pen is down and `S0 G0` otherwise, and its target minus the cursor position is the stroke vector |
| Robot.StrokeCommandRoundTrip | RobotWriter/src/robot/robot.c:17-18 | the stroke is recovered from its command and the cursor position |
| Robot.HomeCommand | RobotWriter/src/robot/robot.c:5-13 | homing is a pen-up travel commented `Home` |
| Robot.HomeIsCursorHome | RobotWriter/src/robot/robot.c:8 | the homing target is the cursor's home position whatever the scale, and the pen is up |
| Gcode.GlyphCommands | RobotWriter/robot/gcode.c:63-64 | one command per stroke, in slot order, each decoding back to its stroke from the same cursor position |
| Gcode.SegmentRoundTrip | RobotWriter/robot/gcode.c:98-110 | the completed words followed by the word in progress spell the text read so far |
| Gcode.WordsRoundTrip | RobotWriter/robot/gcode.c:94-118 | concatenating every word handed to `generate_gcode`, the final flushed one included, gives the text back (same in RobotWriter/src/robot/gcode.c:65-89) |
| Gcode.SegmentShape | RobotWriter/robot/gcode.c:100-109 | every completed word is non-empty and ends with its only delimiter; the word in progress holds no delimiter |
| Gcode.PendingFits | RobotWriter/robot/gcode.c:94-100 | when every word fits the 256-byte buffer, the word in progress (and its NUL) fits it |
| Gcode.FirstErrorAborts | RobotWriter/robot/gcode.c:42-67 | once a cursor operation fails, the characters after it are not processed (same in RobotWriter/src/robot/gcode.c:19-44) |
| Gcode.UnknownCharacterSkipped | RobotWriter/robot/gcode.c:56-61 | a character without a glyph sends nothing, leaves the cursor alone and does not stop the word (same in RobotWriter/src/robot/gcode.c:33-38) |
| Gcode.OutputOnlyGrows | RobotWriter/robot/gcode.c:38-72 | drawing only appends commands |
| Gcode.DrawWordsStops | RobotWriter/robot/gcode.c:98-110 | once a word has failed, later words change nothing |
| Gcode.FailedWordDecides | RobotWriter/robot/gcode.c:105-107 | a word that fails while the text is read decides the outcome of the whole text: the words after it are never drawn |
| Gcode.DrawWordTerminated | RobotWriter/robot/gcode.c:104 | the NUL written after a buffered word does not change how it is drawn |
| Gcode.FittingWordStartsInPlace | RobotWriter/robot/gcode.c:35-36 | a word predicted to fit is drawn from the cursor's own position, with no newline first |
| Gcode.StrokeSentOutOfBounds | RobotWriter/robot/gcode.c:35-67 | with the `src/` constants at scale 1, the word "AA" from (82, -990) follows an ignored failing newline, sends its first stroke to (1, -1012), outside the drawing area, and only then fails |
| Gcode.UnknownWordEndsOutOfBounds | RobotWriter/robot/gcode.c:35-61 | from the same position, a word with no glyphs succeeds although the cursor ends at (0, -1013), below the floor |
| Gcode.SampleTextDrawn | RobotWriter/robot/gcode.c:85-124 | with the top-level constants at scale 1 and a font where `A` is one pen-down stroke and `B` one pen-up stroke, the text "A B" is cut into the words "A " and "B", drawn from the start cell as one DRAW to (1, -16) and one TRAVEL to (36, -17), leaves the cursor at (54, -18) and is followed by the homing TRAVEL to (0, 0) |
| Gcode.Generator.constructor | RobotWriter/robot/gcode.c:31-33 | no cursor yet and no commands sent |
| Gcode.Generator.SendGlyph | RobotWriter/robot/gcode.c:63-64 | sends one command for each of the glyph's numStrokes slots, in index order, from the same cursor position, which it does not move |
| Gcode.Generator.DrawGlyph | RobotWriter/robot/gcode.c:54-69 | a character with a glyph sends its strokes and then updates the cursor, reporting the update's status; a character without one sends nothing, leaves the cursor alone and continues |
| Gcode.Generator.DrawChar | RobotWriter/robot/gcode.c:40-70 | space updates, `\n` is a newline, `\r` a carriage return, anything else is drawn from its glyph; success exactly when the cursor operation it performs lands in bounds, and a character without a glyph, which performs none, always succeeds wherever the cursor is |
| Gcode.Generator.DrawChars | RobotWriter/robot/gcode.c:38-72 | the characters up to the NUL, in order, stopping at the first failing cursor operation; commands and cursor as the run over those characters gives |
| Gcode.Generator.GenerateGcode | RobotWriter/robot/gcode.c:29-74 | the cursor is created once from the font scale and kept across words; a newline first when the word is predicted to overflow, its result ignored; then the word's characters; CURSOR_OUT_OF_BOUNDS exactly when the cursor operation of one of those characters fails (same in RobotWriter/src/robot/gcode.c:6-51) |
| Gcode.Generator.EmitWord | RobotWriter/robot/gcode.c:104-105 | NUL-terminates the buffered word and draws it, without altering the buffered characters |
| Gcode.Generator.FlushWord | RobotWriter/robot/gcode.c:104-107 | the buffered word is drawn as the next word of the text, continuing the run over the words before it |
| Gcode.Generator.BufferChar | RobotWriter/robot/gcode.c:100-109 | the character is stored after the word in progress, and a delimiter completes the word and hands it on, so buffer and commands follow the segmentation of the text read so far |
| Gcode.Generator.BufferText | RobotWriter/robot/gcode.c:98-110 | every character is buffered and every completed word drawn in order; a failing word stops the reading with that word's error, and the words after it are never drawn |
| Gcode.Generator.ProcessTextFile | RobotWriter/robot/gcode.c:85-124 | no font gives NO_FONT_DATA and no file gives NO_TEXT_FILE, both before reading; otherwise the commands are those of drawing every word of the text in order from the persistent cursor, the first failure returns its error, and on success a homing command follows (same in RobotWriter/src/robot/gcode.c:56-95) |

## Left out

- A NULL `self` in every method (`_appendStroke`, `_insert`, `_lookup`, `_scale`, `_parse`): a Dafny receiver cannot be null. NULL arguments that callers can pass are modelled: the glyph given to `Insert`, the file name given to `Parse`, and the font and file given to `ProcessTextFile`.
- Memory management: the malloc failure branches in both constructors, in `_insert` and in `_parse`, both `_free` functions, and the unchecked malloc of the `src/` font table constructor. Dafny allocation does not fail.
- The `src/` copy of `_parse` returning MEMORY_ALLOCATION_FAILED without closing the file (RobotWriter/src/font/fontData.c:208-209) is left out for the same reason.
- File reading (`fopen`, `fgets`, `fgetc`, `fclose`): a font file is the sequence of its lines, and a text file is the sequence of its bytes, read as signed chars.
- The double `fclose` of the text file (RobotWriter/robot/gcode.c:120, then RobotWriter/main.c:91) is not represented.
- Long font lines: `_parse` reads with `fgets` into a 256-byte buffer, so a line with 255 or more characters before its newline is consumed as several reads (the last of them possibly just the newline). A `Line` here stands for one such `fgets` read, and the splitting itself is not modelled.
- `sscanf` and text-to-number conversion: each line arrives already split into what `999 %d %d` and `%lf %lf %i` would read from it (`Line`). A pen value is down when non-zero. Writing an `int` through a cast pointer into the `bool` pen field is not modelled.
- FontChar.Glyph.constructor: starts the append cursor at slot 0, not at slot 1 as both trees do. This is the correction logged under Findings; the as-written start is kept in `ConstructAsWritten`.
- FontChar.Glyph.AppendStroke: refuses once `strokeIdx >= numStrokes`, not `>`, for the same correction; the as-written guard is kept in `AppendAsWritten`.
- FontData.FontTable.Parse: the `src/` copy has no NULL check on the file name, so for that tree a missing name is excluded by precondition instead of given a result.
- `ErrorHandler`'s printing: only the error codes are modelled (`Errors.ErrorCode`). The lookup miss's FONT_CHARACTER_NOT_FOUND report has no effect on the result and is not represented.
- Floating point: coordinates, spacings and scales are `real`, so rounding is not modelled.
- The serial transport, `printf`, `snprintf` and the text formatting of commands (`X%.2lf Y%.2lf`). A command is its code, its target and its comment.
- `SendStoke` and `HomeRobot` always return SUCCESS, so the model gives them no status.
- The `src/` `SendStoke` passes an undeclared `draw` to `snprintf` (RobotWriter/src/robot/robot.c:20), so that file does not compile as shown. The model emits the evidently intended `<command> X<x> Y<y>` as a `Command` value.
- `StartUpRobot` and `SendCommands`: transport only.
- The interactive prompts of `main.c`. Only the accepted height range and `scale = height / 18` are kept, in `StartInBoundsForAcceptedHeights`.
- The `uint8_t` wrap of `strokeIdx` is modelled in the as-written glyph. The lemmas about it require numStrokes < 255, where the wrap cannot happen. The corrected glyph requires numStrokes < 256, which any `uint8_t` capacity meets.
- Unwritten slots: in C they hold whatever `malloc` returned. Here an unwritten slot of a new `array<Stroke>` holds some stroke the model does not constrain, and scaling and drawing read all numStrokes slots, written or not, as the program does.
- FontData.FontTable.Insert requires a glyph whose stroke buffer is not already in the table. The C table would accept the same glyph twice and then scale its strokes twice; the model leaves that aliasing out.
- Scaling writes x and y of a stroke as one assignment of the scaled stroke; there is no observable state between the two writes.
- Gcode.Generator.ProcessTextFile requires every word to fit the 256-byte word buffer, that is, no run of 255 non-delimiter characters. Past that, the program writes outside `buff`, which is not modelled.
- The font table's scale: the constructor leaves `fontScale` unset, and the model leaves it unconstrained until `Scale` sets it. A word drawn before any scale therefore uses an arbitrary scale, as in the program.
- The drawing model (`Gcode.FontView`) is the font's content when drawing starts: the map from each key to its glyph's strokes. The table is not changed while drawing, and the model proves it stays so.

## Findings

| source | as written | input that shows it | evidently intended | confidence | as-written member | corrected member |
|---|---|---|---|---|---|---|
| RobotWriter/font/fontChar.c:59-93 (and RobotWriter/src/font/fontChar.c:20-44) | `strokeIdx` starts at 1 and an append is refused only when `strokeIdx > numStrokes`, so the numStrokes-th append writes `strokes[numStrokes]`, one past the `numStrokes`-slot buffer, while `strokes[0]`, which scaling and drawing read, is never written | a record `999 65 1` followed by one stroke line: the stroke is written to `strokes[1]` of a 1-slot buffer, and `strokes[0]` is drawn uninitialised | the cursor starts at 0 and an append is refused once `strokeIdx >= numStrokes`, so the numStrokes slots read later are exactly the strokes appended, in order | not executed | FontChar.AsWrittenOverflow | FontChar.Glyph.AppendStroke |
