/** The font table (`fontData_t`): glyphs in 128 hash buckets, each bucket a
    chain that new glyphs are put at the front of. */
module FontData {
  import opened Errors
  import opened Coord
  import opened FontChar

  const ASCII_CHARACTERS: nat := 128

  /** `(unsigned int)key % 128`: the bucket of a key. The conversion to
      unsigned adds 2^32 to a negative char, which leaves the residue modulo
      128 as it was. */
  function Hash(key: SChar): (i: nat)
    ensures i < ASCII_CHARACTERS
    ensures i == key as int % ASCII_CHARACTERS
  {
    (key as int + 0x1_0000_0000) % 0x1_0000_0000 % ASCII_CHARACTERS
  }

  // ---------------------------------------------------------------------
  // Chains and the table as values
  // ---------------------------------------------------------------------

  /** The position of the first glyph with the key in a chain, walking from
      its head. */
  function FirstMatch(chain: seq<Glyph>, key: SChar): (r: Option<nat>)
    ensures r.Some? ==> r.value < |chain| && chain[r.value].asciiKey == key
    ensures r.Some? ==> forall j | 0 <= j < r.value :: chain[j].asciiKey != key
    ensures r.None? <==> forall j | 0 <= j < |chain| :: chain[j].asciiKey != key
  {
    if chain == [] then None
    else if chain[0].asciiKey == key then Some(0)
    else match FirstMatch(chain[1..], key)
      case None => None
      case Some(j) => Some(j + 1)
  }

  /** `_lookup` over the buckets: the first glyph of the key's chain that has
      the key, or null. */
  function LookupIn(buckets: seq<seq<Glyph>>, key: SChar): (g: Glyph?)
    requires |buckets| == ASCII_CHARACTERS
    ensures g != null ==> g.asciiKey == key && g in buckets[Hash(key)]
    ensures g == null <==> forall h | h in buckets[Hash(key)] :: h.asciiKey != key
  {
    match FirstMatch(buckets[Hash(key)], key)
    case None => null
    case Some(j) => buckets[Hash(key)][j]
  }

  /** `_insert` over the buckets: the glyph goes to the head of its chain. */
  function InsertInto(buckets: seq<seq<Glyph>>, g: Glyph): (r: seq<seq<Glyph>>)
    requires |buckets| == ASCII_CHARACTERS
    ensures |r| == ASCII_CHARACTERS
  {
    buckets[Hash(g.asciiKey) := [g] + buckets[Hash(g.asciiKey)]]
  }

  /** Inserts the glyphs one after the other, first one first. */
  function InsertAll(buckets: seq<seq<Glyph>>, gs: seq<Glyph>): (r: seq<seq<Glyph>>)
    requires |buckets| == ASCII_CHARACTERS
    ensures |r| == ASCII_CHARACTERS
    decreases |gs|
  {
    if gs == [] then buckets else InsertInto(InsertAll(buckets, gs[..|gs| - 1]), gs[|gs| - 1])
  }

  lemma InsertAllSnoc(buckets: seq<seq<Glyph>>, gs: seq<Glyph>, g: Glyph)
    requires |buckets| == ASCII_CHARACTERS
    ensures InsertAll(buckets, gs + [g]) == InsertInto(InsertAll(buckets, gs), g)
  {
    assert (gs + [g])[..|gs|] == gs;
  }

  /** The last glyph of the sequence that has the key, or null. */
  function LastWithKey(gs: seq<Glyph>, key: SChar): (r: Glyph?)
    ensures r != null ==> r in gs && r.asciiKey == key
    decreases |gs|
  {
    if gs == [] then null
    else if gs[|gs| - 1].asciiKey == key then gs[|gs| - 1]
    else LastWithKey(gs[..|gs| - 1], key)
  }

  /** After an insert, the key of the new glyph finds it, and every other key
      finds what it found before. */
  lemma LookupAfterInsert(buckets: seq<seq<Glyph>>, g: Glyph, key: SChar)
    requires |buckets| == ASCII_CHARACTERS
    ensures LookupIn(InsertInto(buckets, g), key) == if key == g.asciiKey then g else LookupIn(buckets, key)
  {
    var h := Hash(g.asciiKey);
    if Hash(key) == h && key != g.asciiKey {
      var chain := buckets[h];
      assert ([g] + chain)[1..] == chain;
    }
  }

  /** The newest glyph with a key shadows every older one: after a run of
      inserts, a key finds the last glyph inserted with it, or what it found
      before when none was. */
  lemma {:induction false} LookupAfterInsertAll(buckets: seq<seq<Glyph>>, gs: seq<Glyph>, key: SChar)
    requires |buckets| == ASCII_CHARACTERS
    ensures LookupIn(InsertAll(buckets, gs), key) ==
            if LastWithKey(gs, key) != null then LastWithKey(gs, key) else LookupIn(buckets, key)
    decreases |gs|
  {
    if gs != [] {
      var init := gs[..|gs| - 1];
      LookupAfterInsertAll(buckets, init, key);
      LookupAfterInsert(InsertAll(buckets, init), gs[|gs| - 1], key);
    }
  }

  // ---------------------------------------------------------------------
  // Scaling as values
  // ---------------------------------------------------------------------

  function ScaleStroke(s: Stroke, f: real): Stroke {
    Stroke(Scale(s.vec, f), s.penDown)
  }

  /** Every stroke's vector multiplied by the factor, pen states kept. */
  function ScaleStrokes(ss: seq<Stroke>, f: real): (r: seq<Stroke>)
    ensures |r| == |ss|
  {
    seq(|ss|, k requires 0 <= k < |ss| => ScaleStroke(ss[k], f))
  }

  lemma ScaleStrokesSnoc(ss: seq<Stroke>, s: Stroke, f: real)
    ensures ScaleStrokes(ss + [s], f) == ScaleStrokes(ss, f) + [ScaleStroke(s, f)]
  {
  }

  /** Scaling keeps every pen state and multiplies each component. */
  lemma ScaleStrokesPointwise(ss: seq<Stroke>, f: real, k: nat)
    requires k < |ss|
    ensures ScaleStrokes(ss, f)[k].penDown == ss[k].penDown
    ensures ScaleStrokes(ss, f)[k].vec == Coord2D(ss[k].vec.x * f, ss[k].vec.y * f)
  {
  }

  /** Scaling is not idempotent: a second scale compounds with the first. */
  lemma ScaleStrokesCompounds(ss: seq<Stroke>, f: real, g: real)
    ensures ScaleStrokes(ScaleStrokes(ss, f), g) == ScaleStrokes(ss, f * g)
  {
    forall k | 0 <= k < |ss|
      ensures ScaleStrokes(ScaleStrokes(ss, f), g)[k] == ScaleStrokes(ss, f * g)[k]
    {
      ScaleCompounds(ss[k].vec, f, g);
    }
  }

  // ---------------------------------------------------------------------
  // Font files as values
  // ---------------------------------------------------------------------

  /** What `sscanf(line, "999 %d %d", ...)` reads from a header line. */
  datatype Header = Header(id: int, count: int)

  /** What `sscanf(line, "%lf %lf %i", ...)` reads from a stroke line. */
  datatype StrokeFields = StrokeFields(x: real, y: real, pen: int)

  /** One line of a font file, with what each of the two formats reads from
      it (a line may match both, or neither). */
  datatype Line = Line(header: Option<Header>, stroke: Option<StrokeFields>)

  /** The font file: no name given, a name that cannot be opened, or the
      lines of an opened file. */
  datatype FontSource = NoFilename | Unopenable | Readable(lines: seq<Line>)

  /** The two copies of the parser, which differ in their error paths. */
  datatype Tree = Current | Legacy

  /** One glyph definition as the parser builds it. */
  datatype Record = Record(key: SChar, capacity: nat, strokes: seq<Stroke>)

  function StrokeOf(f: StrokeFields): Stroke {
    Stroke(Coord2D(f.x, f.y), f.pen != 0)
  }

  /** The strokes of a record's body, in order; a line that does not parse
      as a stroke is skipped. */
  function BodyStrokes(body: seq<Line>): seq<Stroke>
    decreases |body|
  {
    if body == [] then []
    else BodyStrokes(body[..|body| - 1]) +
         match body[|body| - 1].stroke
         case None => []
         case Some(f) => [StrokeOf(f)]
  }

  /** The strokes a glyph of the given capacity keeps: appends past the
      capacity are refused. */
  function Capped(ss: seq<Stroke>, cap: nat): (r: seq<Stroke>)
    ensures r <= ss
    ensures |r| == if |ss| <= cap then |ss| else cap
  {
    if |ss| <= cap then ss else ss[..cap]
  }

  /** How many body lines a header announcing `count` strokes consumes when
      `available` lines remain: the loop stops early at end of file. */
  function BodyLength(count: int, available: nat): (n: nat)
    ensures n <= available
    ensures count <= 0 ==> n == 0
    ensures 0 < count ==> n <= count && (n < count ==> n == available)
  {
    if count <= 0 then 0 else if count < available then count else available
  }

  /** The records of a font file, in file order. Reading stops, without
      error, at the first line where a header is expected and none is found. */
  function Records(lines: seq<Line>): seq<Record>
    decreases |lines|
  {
    if lines == [] || lines[0].header.None? then []
    else
      var h := lines[0].header.value;
      var n := BodyLength(h.count, |lines| - 1);
      [Record(ToChar(h.id), ToUint8(h.count), Capped(BodyStrokes(lines[1..1 + n]), ToUint8(h.count)))]
      + Records(lines[1 + n..])
  }

  lemma CappedSnoc(ss: seq<Stroke>, s: Stroke, cap: nat)
    ensures Capped(ss + [s], cap) ==
            if |Capped(ss, cap)| < cap then Capped(ss, cap) + [s] else Capped(ss, cap)
  {
    if |ss| > cap {
      assert (ss + [s])[..cap] == ss[..cap];
    }
  }

  /** One step of `Records`: a header at `i` whose body ends at `next`. */
  lemma RecordsStep(lines: seq<Line>, i: nat, next: nat)
    requires i < |lines| && lines[i].header.Some?
    requires next == i + 1 + BodyLength(lines[i].header.value.count, |lines| - (i + 1))
    ensures
      var h := lines[i].header.value;
      Records(lines[i..]) ==
        [Record(ToChar(h.id), ToUint8(h.count), Capped(BodyStrokes(lines[i + 1..next]), ToUint8(h.count)))]
        + Records(lines[next..])
  {
    var t := lines[i..];
    assert t[1..1 + (next - i - 1)] == lines[i + 1..next];
    assert t[1 + (next - i - 1)..] == lines[next..];
  }

  lemma ShiftRecord(done: seq<Record>, r: Record, rest: seq<Record>, tail: seq<Record>, all: seq<Record>)
    requires done + rest == all && rest == [r] + tail
    ensures (done + [r]) + tail == all
  {
    assert (done + [r]) + tail == done + ([r] + tail);
  }

  /** A glyph holds a record: same key and capacity, same appended strokes. */
  ghost predicate Holds(g: Glyph, r: Record)
    reads g, g.strokes
  {
    g.Valid() && g.asciiKey == r.key && g.numStrokes == r.capacity && g.Appended() == r.strokes
  }

  // ---------------------------------------------------------------------
  // The table
  // ---------------------------------------------------------------------

  /** Each glyph of `gs` holds the record at the same position of `rs`. */
  ghost predicate AllHold(gs: seq<Glyph>, rs: seq<Record>)
    reads gs, set k | 0 <= k < |gs| :: gs[k].strokes
  {
    |gs| == |rs| && forall k | 0 <= k < |gs| :: Holds(gs[k], rs[k])
  }

  lemma AllHoldSnoc(gs: seq<Glyph>, rs: seq<Record>, g: Glyph, r: Record)
    requires AllHold(gs, rs) && Holds(g, r)
    ensures AllHold(gs + [g], rs + [r])
  {
    forall k | 0 <= k < |gs| + 1
      ensures Holds((gs + [g])[k], (rs + [r])[k])
    {
      if k < |gs| {
        assert (gs + [g])[k] == gs[k] && (rs + [r])[k] == rs[k];
      }
    }
  }

  /** The last record of the file with the key, if any. */
  function LastRecord(rs: seq<Record>, key: SChar): (r: Option<Record>)
    ensures r.Some? ==> r.value in rs && r.value.key == key
    ensures r.None? <==> forall j | 0 <= j < |rs| :: rs[j].key != key
    decreases |rs|
  {
    if rs == [] then None
    else if rs[|rs| - 1].key == key then Some(rs[|rs| - 1])
    else LastRecord(rs[..|rs| - 1], key)
  }

  /** The last glyph with a key holds the last record with that key. */
  lemma {:induction false} LastGlyphHoldsLastRecord(gs: seq<Glyph>, rs: seq<Record>, key: SChar)
    requires AllHold(gs, rs)
    ensures LastWithKey(gs, key) == null <==> LastRecord(rs, key).None?
    ensures LastWithKey(gs, key) != null ==> Holds(LastWithKey(gs, key), LastRecord(rs, key).value)
    decreases |gs|
  {
    if gs != [] {
      var n := |gs| - 1;
      assert AllHold(gs[..n], rs[..n]) by {
        forall k | 0 <= k < n
          ensures Holds(gs[..n][k], rs[..n][k])
        {
          assert gs[..n][k] == gs[k] && rs[..n][k] == rs[k];
        }
      }
      LastGlyphHoldsLastRecord(gs[..n], rs[..n], key);
    }
  }

  class FontTable {
    /** Set by `Scale`; the constructor leaves it unset. */
    var fontScale: real
    const table: array<seq<Glyph>>

    ghost predicate Valid()
      reads table
    {
      && table.Length == ASCII_CHARACTERS
      && (forall i, j | 0 <= i < table.Length && 0 <= j < |table[i]| ::
            Hash(table[i][j].asciiKey) == i && table[i][j].Allocated())
      && (forall i, j, i', j' |
            && 0 <= i < table.Length && 0 <= j < |table[i]|
            && 0 <= i' < table.Length && 0 <= j' < |table[i']|
            && table[i][j].strokes == table[i'][j'].strokes
            :: i == i' && j == j')
    }

    /** The stroke buffers of every glyph in the table. */
    ghost function StrokeArrays(): set<array<Stroke>>
      reads table
    {
      set i, j | 0 <= i < table.Length && 0 <= j < |table[i]| :: table[i][j].strokes
    }

    constructor ()
      ensures Valid() && fresh(table)
      ensures forall i | 0 <= i < ASCII_CHARACTERS :: table[i] == []
      ensures forall k: SChar :: Lookup(k) == null
    {
      table := new seq<Glyph>[ASCII_CHARACTERS];
      new;
      var i := 0;
      while i < ASCII_CHARACTERS
        invariant 0 <= i <= ASCII_CHARACTERS
        invariant forall i' | 0 <= i' < i :: table[i'] == []
      {
        table[i] := [];
        i := i + 1;
      }
    }

    function Lookup(asciiKey: SChar): (g: Glyph?)
      reads table
      requires Valid()
      ensures g != null ==> g.asciiKey == asciiKey && g.Allocated() && g in table[Hash(asciiKey)]
      ensures g != null ==> g.strokes in StrokeArrays()
      ensures g == null <==> forall h | h in table[Hash(asciiKey)] :: h.asciiKey != asciiKey
    {
      LookupIn(table[..], asciiKey)
    }

    /** The strokes drawn for each key that has a glyph: all of the glyph's
        slots, in index order. */
    ghost function View(): map<SChar, seq<Stroke>>
      reads table, StrokeArrays()
      requires Valid()
    {
      map k: SChar | -128 <= k as int < 128 && Lookup(k) != null :: Lookup(k).strokes[..]
    }

    method Insert(character: Glyph?) returns (e: ErrorCode)
      requires Valid()
      requires character != null ==> character.Allocated() && character.strokes !in StrokeArrays()
      modifies table
      ensures Valid()
      ensures character == null ==> e == NullPointer && table[..] == old(table[..])
      ensures character != null ==> e == Success && table[..] == InsertInto(old(table[..]), character)
    {
      if character == null {
        return NullPointer;
      }
      var index := Hash(character.asciiKey);
      table[index] := [character] + table[index];
      e := Success;
    }
    /** The innermost loop of `_scale`: multiplies the vector of each of the
        glyph's numStrokes slots by the factor. */
    static method ScaleGlyph(fontChar: Glyph, scale: real)
      requires fontChar.Allocated()
      modifies fontChar.strokes
      ensures fontChar.strokes[..] == ScaleStrokes(old(fontChar.strokes[..]), scale)
    {
      ghost var before := fontChar.strokes[..];
      var k := 0;
      while k < fontChar.numStrokes
        invariant 0 <= k <= fontChar.numStrokes
        invariant fontChar.strokes[..] == ScaleStrokes(before[..k], scale) + before[k..]
      {
        assert fontChar.strokes[k] == before[k];
        fontChar.strokes[k] := ScaleStroke(fontChar.strokes[k], scale);
        ScaleStrokesSnoc(before[..k], before[k], scale);
        assert before[..k + 1] == before[..k] + [before[k]];
        k := k + 1;
      }
    }

    /** The middle loop of `_scale`: every glyph of one bucket's chain. */
    static method ScaleChain(chain: seq<Glyph>, scale: real)
      requires forall j | 0 <= j < |chain| :: chain[j].Allocated()
      requires forall j, j' | 0 <= j < j' < |chain| :: chain[j].strokes != chain[j'].strokes
      modifies set j | 0 <= j < |chain| :: chain[j].strokes
      ensures forall j | 0 <= j < |chain| ::
                chain[j].strokes[..] == ScaleStrokes(old(chain[j].strokes[..]), scale)
    {
      var j := 0;
      while j < |chain|
        invariant 0 <= j <= |chain|
        invariant forall j' | 0 <= j' < j ::
                    chain[j'].strokes[..] == ScaleStrokes(old(chain[j'].strokes[..]), scale)
        invariant forall j' | j <= j' < |chain| ::
                    chain[j'].strokes[..] == old(chain[j'].strokes[..])
      {
        ScaleGlyph(chain[j], scale);
        j := j + 1;
      }
    }

    /** Multiplies every stroke of every glyph, shadowed ones included, by
        the factor, and records the factor. */
    method Scale(scale: real) returns (e: ErrorCode)
      requires Valid()
      modifies this, StrokeArrays()
      ensures Valid() && e == Success && fontScale == scale
      ensures table[..] == old(table[..])
      ensures forall i, j | 0 <= i < ASCII_CHARACTERS && 0 <= j < |table[i]| ::
                table[i][j].strokes[..] == ScaleStrokes(old(table[i][j].strokes[..]), scale)
    {
      fontScale := scale;
      var i := 0;
      while i < ASCII_CHARACTERS
        invariant 0 <= i <= ASCII_CHARACTERS && fontScale == scale
        invariant forall i', j' | 0 <= i' < i && 0 <= j' < |table[i']| ::
                    table[i'][j'].strokes[..] == ScaleStrokes(old(table[i'][j'].strokes[..]), scale)
        invariant forall i', j' | i <= i' < ASCII_CHARACTERS && 0 <= j' < |table[i']| ::
                    table[i'][j'].strokes[..] == old(table[i'][j'].strokes[..])
      {
        ScaleChain(table[i], scale);
        i := i + 1;
      }
      e := Success;
    }

    /** The body of one record: allocates a glyph for the header and reads
        up to `count` lines after `start`, appending each stroke line. */
    static method ReadGlyph(lines: seq<Line>, start: nat, id: int, count: int)
        returns (fontChar: Glyph, i: nat)
      requires start <= |lines|
      ensures fresh(fontChar) && fresh(fontChar.strokes)
      ensures i == start + BodyLength(count, |lines| - start)
      ensures fontChar.Valid() && fontChar.asciiKey == ToChar(id) && fontChar.numStrokes == ToUint8(count)
      ensures fontChar.Appended() == Capped(BodyStrokes(lines[start..i]), ToUint8(count))
    {
      fontChar := new Glyph(ToChar(id), ToUint8(count));
      i := start;
      var k := 0;
      while k < count
        modifies fontChar, fontChar.strokes
        invariant start <= i <= |lines| && i == start + k
        invariant k <= if count < 0 then 0 else count
        invariant fontChar.Valid() && fontChar.asciiKey == ToChar(id) && fontChar.numStrokes == ToUint8(count)
        invariant fontChar.Appended() == Capped(BodyStrokes(lines[start..i]), fontChar.numStrokes)
      {
        if i >= |lines| {
          break;
        }
        assert lines[start..i + 1] == lines[start..i] + [lines[i]];
        if lines[i].stroke.Some? {
          var _ := fontChar.AppendStroke(StrokeOf(lines[i].stroke.value));
          CappedSnoc(BodyStrokes(lines[start..i]), StrokeOf(lines[i].stroke.value), fontChar.numStrokes);
        }
        i := i + 1;
        k := k + 1;
      }
    }

    /** One pass of the record loop: reads the record whose header is at
        line `i` and inserts its glyph. */
    method AddRecord(lines: seq<Line>, i: nat) returns (fontChar: Glyph, next: nat)
      requires Valid()
      requires i < |lines| && lines[i].header.Some?
      modifies table
      ensures Valid()
      ensures fresh(fontChar) && fontChar.Valid()
      ensures i < next <= |lines|
      ensures table[..] == InsertInto(old(table[..]), fontChar)
      ensures Records(lines[i..]) == [Record(fontChar.asciiKey, fontChar.numStrokes, fontChar.Appended())] + Records(lines[next..])
      ensures Holds(fontChar, Record(fontChar.asciiKey, fontChar.numStrokes, fontChar.Appended()))
    {
      var header := lines[i].header.value;
      fontChar, next := ReadGlyph(lines, i + 1, header.id, header.count);
      RecordsStep(lines, i, next);
      var _ := Insert(fontChar);
    }

    /** The record loop of `_parse`: reads records until end of file or a
        line that is not a header, inserting one glyph per record. */
    method ParseLines(lines: seq<Line>) returns (ghost added: seq<Glyph>)
      requires Valid()
      modifies table
      ensures Valid()
      ensures table[..] == InsertAll(old(table[..]), added)
      ensures forall k | 0 <= k < |added| :: fresh(added[k])
      ensures AllHold(added, Records(lines))
    {
      added := [];
      ghost var initial := table[..];
      ghost var all := Records(lines);
      ghost var rest := all;
      ghost var recs: seq<Record> := [];
      var i := 0;
      while i < |lines|
        invariant 0 <= i <= |lines|
        invariant Valid()
        invariant table[..] == InsertAll(initial, added)
        invariant rest == Records(lines[i..])
        invariant recs + rest == all
        invariant forall k | 0 <= k < |added| :: fresh(added[k])
        invariant AllHold(added, recs)
      {
        if lines[i].header.None? {
          break;
        }
        var fontChar, next := AddRecord(lines, i);
        InsertAllSnoc(initial, added, fontChar);
        ghost var rec := Record(fontChar.asciiKey, fontChar.numStrokes, fontChar.Appended());
        AllHoldSnoc(added, recs, fontChar, rec);
        added := added + [fontChar];
        ShiftRecord(recs, rec, rest, Records(lines[next..]), all);
        recs := recs + [rec];
        rest := Records(lines[next..]);
        i := next;
      }
      assert rest == [] by {
        assert i == |lines| || lines[i..][0].header.None?;
      }
      assert recs == all;
    }

    /** Opens the font file and loads every record into the table. */
    method Parse(source: FontSource, tree: Tree) returns (e: ErrorCode, ghost added: seq<Glyph>)
      requires Valid()
      requires tree == Legacy ==> !source.NoFilename?
      modifies table
      ensures Valid()
      ensures !source.Readable? ==> added == [] && table[..] == old(table[..])
      ensures source.NoFilename? ==> e == NullPointer
      ensures source.Unopenable? ==> e == (if tree == Current then NoFontData else OpenFile)
      ensures source.Readable? ==>
                && e == Success
                && table[..] == InsertAll(old(table[..]), added)
                && (forall k | 0 <= k < |added| :: fresh(added[k]))
                && AllHold(added, Records(source.lines))
    {
      added := [];
      if source.NoFilename? {
        return NullPointer, added;
      }
      if source.Unopenable? {
        e := if tree == Current then NoFontData else OpenFile;
        return;
      }
      added := ParseLines(source.lines);
      e := Success;
    }
  }

  /** The view holds exactly the keys `Lookup` finds, each with its glyph's
      full stroke buffer. */
  lemma ViewAt(font: FontTable, k: SChar)
    requires font.Valid()
    ensures (k in font.View()) == (font.Lookup(k) != null)
    ensures k in font.View() ==> font.View()[k] == font.Lookup(k).strokes[..]
  {
  }

  /** Leaving the table array and every stroke buffer alone keeps the view. */
  twostate lemma ViewKept(font: FontTable)
    requires old(font.Valid())
    requires unchanged(font.table)
    requires forall a | a in old(font.StrokeArrays()) :: unchanged(a)
    ensures font.Valid() && font.View() == old(font.View())
  {
  }

  /** A font file parsed into an empty table: looking a key up finds the
      glyph of the file's last record with that key, holding that record's
      strokes, or null when no record has the key. */
  lemma ParsedLookup(font: FontTable, before: seq<seq<Glyph>>, added: seq<Glyph>, lines: seq<Line>, key: SChar)
    requires font.Valid()
    requires |before| == ASCII_CHARACTERS && forall i | 0 <= i < ASCII_CHARACTERS :: before[i] == []
    requires font.table[..] == InsertAll(before, added)
    requires AllHold(added, Records(lines))
    ensures font.Lookup(key) == null <==> LastRecord(Records(lines), key).None?
    ensures font.Lookup(key) != null ==> Holds(font.Lookup(key), LastRecord(Records(lines), key).value)
  {
    LookupAfterInsertAll(before, added, key);
    LastGlyphHoldsLastRecord(added, Records(lines), key);
  }
}
