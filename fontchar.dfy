/** A glyph (`fontCharacter_t`): the strokes that draw one character, held in a
    fixed-capacity buffer filled through an append cursor. */
module FontChar {
  import opened Errors
  import opened Coord

  /** A C `char`: signed, 8 bits. */
  newtype SChar = x: int | -128 <= x < 128

  /** `(char)id`: keeps the low 8 bits of an `int`, read as two's complement. */
  function ToChar(id: int): (c: SChar)
    ensures (c as int - id) % 256 == 0
    ensures -128 <= id < 128 ==> c as int == id
  {
    ((id + 128) % 256 - 128) as SChar
  }

  /** `(uint8_t)n`: keeps the low 8 bits of an `int`. */
  function ToUint8(n: int): (b: nat)
    ensures b < 256 && (b - n) % 256 == 0
    ensures 0 <= n < 256 ==> b == n
  {
    n % 256
  }

  /** `strlen`: the index of the first NUL, or the whole length when there
      is none. */
  function Strlen(s: seq<SChar>): (n: nat)
    ensures n <= |s|
    ensures forall j | 0 <= j < n :: s[j] != 0
    ensures n < |s| ==> s[n] == 0
  {
    if s == [] || s[0] == 0 then 0 else 1 + Strlen(s[1..])
  }

  lemma StrlenTerminated(s: seq<SChar>)
    ensures Strlen(s + [0]) == Strlen(s)
  {
    StrlenUnique(s + [0], Strlen(s));
  }

  /** The three properties of `Strlen` determine it. */
  lemma StrlenUnique(s: seq<SChar>, n: nat)
    requires n <= |s| && (forall j | 0 <= j < n :: s[j] != 0) && (n < |s| ==> s[n] == 0)
    ensures Strlen(s) == n
  {
  }

  /** One pen movement: a relative vector and whether the pen is down. */
  datatype Stroke = Stroke(vec: Coord2D, penDown: bool)

  // ---------------------------------------------------------------------
  // The glyph as written: the append cursor starts at slot 1 and the guard
  // `strokeIdx > numStrokes` lets a write land in slot numStrokes, one past
  // the numStrokes slots that were allocated. Memory is a map from slot to
  // stroke so that a write outside the allocation can be represented.
  // ---------------------------------------------------------------------

  datatype GlyphImage = GlyphImage(asciiKey: SChar, numStrokes: nat, strokeIdx: nat, slots: map<nat, Stroke>)

  /** The slots that `malloc(numStrokes * sizeof(stroke_t))` provides. */
  predicate InAllocation(g: GlyphImage, i: int) {
    0 <= i < g.numStrokes
  }

  /** `fontCharConstuctor` as written: no slot written, cursor at 1. */
  function ConstructAsWritten(asciiKey: SChar, numStrokes: nat): (g: GlyphImage)
    ensures g.asciiKey == asciiKey && g.numStrokes == numStrokes
    ensures g.strokeIdx == 1 && g.slots == map[]
  {
    GlyphImage(asciiKey, numStrokes, 1, map[])
  }

  /** `_appendStroke` as written; `strokeIdx` is a `uint8_t`, so the
      increment wraps at 256. */
  function AppendAsWritten(g: GlyphImage, s: Stroke): (r: (GlyphImage, ErrorCode))
    ensures r.1 == Success || r.1 == OutOfBounds
    ensures r.1 == OutOfBounds <==> g.strokeIdx > g.numStrokes
    ensures r.1 == OutOfBounds ==> r.0 == g
    ensures r.1 == Success ==>
              && r.0.asciiKey == g.asciiKey && r.0.numStrokes == g.numStrokes
              && r.0.strokeIdx == (g.strokeIdx + 1) % 256
              && g.strokeIdx in r.0.slots && r.0.slots[g.strokeIdx] == s
              && (forall i | i != g.strokeIdx :: (i in r.0.slots <==> i in g.slots))
              && (forall i | i != g.strokeIdx && i in g.slots :: r.0.slots[i] == g.slots[i])
  {
    if g.strokeIdx > g.numStrokes then (g, OutOfBounds)
    else (g.(slots := g.slots[g.strokeIdx := s], strokeIdx := (g.strokeIdx + 1) % 256), Success)
  }

  /** Appends every stroke in order, ignoring the status, as the font parser does. */
  function AppendAllAsWritten(g: GlyphImage, ss: seq<Stroke>): GlyphImage
    decreases |ss|
  {
    if ss == [] then g
    else AppendAsWritten(AppendAllAsWritten(g, ss[..|ss| - 1]), ss[|ss| - 1]).0
  }

  /** Appending k <= numStrokes strokes to a new glyph fills slots 1..k, in
      order, and leaves the cursor at k + 1. */
  lemma {:induction false} AsWrittenAppendAll(key: SChar, n: nat, ss: seq<Stroke>)
    requires n < 255 && |ss| <= n
    ensures var g := AppendAllAsWritten(ConstructAsWritten(key, n), ss);
            && g.asciiKey == key && g.numStrokes == n
            && g.strokeIdx == |ss| + 1
            && (forall i: nat :: i in g.slots <==> 1 <= i <= |ss|)
            && (forall i | 0 <= i < |ss| :: g.slots[i + 1] == ss[i])
  {
    if ss != [] {
      AsWrittenAppendAll(key, n, ss[..|ss| - 1]);
    }
  }

  /** Whatever appends are made and however many are refused, the cursor
      stays within 1..numStrokes + 1, every written slot lies in
      1..numStrokes, and slot 0 is never written. */
  lemma {:induction false} AsWrittenInvariant(key: SChar, n: nat, ss: seq<Stroke>)
    requires n < 255
    ensures var g := AppendAllAsWritten(ConstructAsWritten(key, n), ss);
            && g.asciiKey == key && g.numStrokes == n
            && 1 <= g.strokeIdx <= n + 1
            && (forall i | i in g.slots :: 1 <= i <= n)
            && 0 !in g.slots
    decreases |ss|
  {
    if ss != [] {
      AsWrittenInvariant(key, n, ss[..|ss| - 1]);
    }
  }

  /** The defect: after numStrokes appends the last stroke sits in slot
      numStrokes, outside the allocation; slot 0, which scaling and drawing
      read, was never written; and the next append is refused. */
  lemma AsWrittenOverflow(key: SChar, n: nat, ss: seq<Stroke>, extra: Stroke)
    requires 1 <= n < 255 && |ss| == n
    ensures var g := AppendAllAsWritten(ConstructAsWritten(key, n), ss);
            && n in g.slots && !InAllocation(g, n) && g.slots[n] == ss[n - 1]
            && 0 !in g.slots && InAllocation(g, 0)
            && AppendAsWritten(g, extra).1 == OutOfBounds
  {
    AsWrittenAppendAll(key, n, ss);
  }

  // ---------------------------------------------------------------------
  // The corrected glyph: the cursor starts at slot 0 and the guard refuses
  // a write once every allocated slot is used, so the numStrokes slots that
  // scaling and drawing read are exactly the ones appended to.
  // ---------------------------------------------------------------------

  class Glyph {
    const asciiKey: SChar
    const numStrokes: nat
    const strokes: array<Stroke>
    var strokeIdx: nat

    /** The buffer has exactly the capacity the glyph was built with. */
    predicate Allocated() {
      strokes.Length == numStrokes
    }

    ghost predicate Valid()
      reads this
    {
      Allocated() && numStrokes < 256 && strokeIdx <= numStrokes
    }

    /** The strokes appended so far, in order. */
    ghost function Appended(): seq<Stroke>
      reads this, strokes
      requires Valid()
    {
      strokes[..strokeIdx]
    }

    constructor (asciiKey: SChar, numStrokes: nat)
      requires numStrokes < 256
      ensures Valid() && fresh(strokes)
      ensures this.asciiKey == asciiKey && this.numStrokes == numStrokes
      ensures strokeIdx == 0 && Appended() == []
    {
      this.asciiKey := asciiKey;
      this.numStrokes := numStrokes;
      this.strokeIdx := 0;
      this.strokes := new Stroke[numStrokes];
    }

    method AppendStroke(stroke: Stroke) returns (e: ErrorCode)
      requires Valid()
      modifies this, strokes
      ensures Valid()
      ensures e == (if old(strokeIdx) >= numStrokes then OutOfBounds else Success)
      ensures e == OutOfBounds ==> strokeIdx == old(strokeIdx) && strokes[..] == old(strokes[..])
      ensures e == Success ==>
                && strokeIdx == old(strokeIdx) + 1
                && strokes[..] == old(strokes[..])[old(strokeIdx) := stroke]
      ensures Appended() == if e == Success then old(Appended()) + [stroke] else old(Appended())
    {
      if strokeIdx >= numStrokes {
        return OutOfBounds;
      }
      strokes[strokeIdx] := stroke;
      strokeIdx := strokeIdx + 1;
      e := Success;
    }
  }
}
