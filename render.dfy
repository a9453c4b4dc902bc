/** The plain-text frame that `display_grid` writes when the program is
    built without `ANSI_TERM`: a clear-screen escape, then one line per grid
    row with every cell drawn as its glyph twice. */
module Render {
  import opened GridState

  /** The glyph palette, darkest first; its length is `level_count`. */
  const Levels: string := " .-=coaA@#"

  /** The array `level` as stored: the palette followed by the string's
      terminating NUL, which is also a valid element to read. */
  const LevelArray: string := Levels + ['\0']

  /** The escape sequence written before every frame. */
  const ClearScreen: string := "\U{1B}[1J"

  /** C's conversion of a floating value to `int`: truncation toward zero. */
  function TruncToInt(v: real): int
  {
    if v >= 0.0 then v.Floor else -((-v).Floor)
  }

  /** The truncated value is the integer next to `v` on the side of zero. */
  lemma TruncToIntBounds(v: real)
    ensures v >= 0.0 ==> 0 <= TruncToInt(v) && TruncToInt(v) as real <= v < TruncToInt(v) as real + 1.0
    ensures v < 0.0 ==> TruncToInt(v) <= 0 && TruncToInt(v) as real - 1.0 < v <= TruncToInt(v) as real
  {
  }

  /** `(int)(v * (level_count - 1))`: the palette index drawn for intensity
      `v`. Intensities in [0,1] select one of the palette's glyphs. */
  function GlyphIndex(v: real): (i: int)
    ensures 0.0 <= v <= 1.0 ==> 0 <= i < |Levels|
  {
    TruncToIntBounds(v * (|Levels| - 1) as real);
    TruncToInt(v * (|Levels| - 1) as real)
  }

  /** Intensity 0 selects the first glyph and 1 the last. Since the cast
      truncates toward zero, the index stays in the palette exactly for
      intensities strictly between `-1/9` and `10/9`, and within the array
      `level` (counting its NUL) exactly between `-1/9` and `11/9`. */
  lemma GlyphIndexRange(v: real)
    ensures v == 0.0 ==> GlyphIndex(v) == 0
    ensures v == 1.0 ==> GlyphIndex(v) == |Levels| - 1
    ensures 0 <= GlyphIndex(v) < |Levels| <==> -1.0 / 9.0 < v < 10.0 / 9.0
    ensures 0 <= GlyphIndex(v) < |LevelArray| <==> -1.0 / 9.0 < v < 11.0 / 9.0
  {
    TruncToIntBounds(v * 9.0);
  }

  /** A brighter cell never gets a darker glyph. */
  lemma GlyphIndexMonotone(v1: real, v2: real)
    requires 0.0 <= v1 <= v2
    ensures GlyphIndex(v1) <= GlyphIndex(v2)
  {
    TruncToIntBounds(v1 * 9.0);
    TruncToIntBounds(v2 * 9.0);
    assert v1 * 9.0 <= v2 * 9.0;
  }

  /** Every cell's index lies within the array `level`, which is all the
      source needs to read it safely. */
  ghost predicate Renderable(g: array2<real>)
    reads g
  {
    forall y, x :: 0 <= y < g.Length0 && 0 <= x < g.Length1 ==> 0 <= GlyphIndex(g[y, x]) < |LevelArray|
  }

  lemma UnitRangeRenderable(g: array2<real>)
    requires InUnitRange(g)
    ensures Renderable(g)
  {
    forall y, x | 0 <= y < g.Length0 && 0 <= x < g.Length1
      ensures 0 <= GlyphIndex(g[y, x]) < |LevelArray|
    {
      GlyphIndexRange(g[y, x]);
    }
  }

  /** The character drawn for intensity `v`. Intensities in [0,1] draw a
      visible glyph of the palette, 0 the blank and 1 the `#`; an
      intensity in `[10/9, 11/9)` reaches index 10, the NUL terminator. An
      index outside the array is a read past `level` in the source; the
      model draws a blank there, and `DisplayGrid` only runs on grids where
      that cannot happen. */
  function Glyph(v: real): (c: char)
    ensures 0.0 <= v <= 1.0 ==> c in Levels && c != '\0'
    ensures v == 0.0 ==> c == ' '
    ensures v == 1.0 ==> c == '#'
    ensures 10.0 / 9.0 <= v < 11.0 / 9.0 ==> c == '\0'
  {
    var i := GlyphIndex(v);
    GlyphIndexRange(v);
    if 0 <= i < |LevelArray| then LevelArray[i] else ' '
  }

  /** The characters `display_grid` has written once it reaches cell
      `(x, y)`: the escape, every earlier row as two glyphs per cell and a
      newline, then the first `x` cells of row `y`. */
  ghost function Written(g: array2<real>, y: int, x: int): string
    reads g
    requires 0 <= y <= g.Length0 && 0 <= x <= g.Length1 && (y == g.Length0 ==> x == 0)
    decreases y, x
  {
    if x > 0 then
      var c := Glyph(g[y, x - 1]); Written(g, y, x - 1) + [c, c]
    else if y > 0 then Written(g, y - 1, g.Length1) + ['\n']
    else ClearScreen
  }

  /** The whole frame. */
  ghost function Frame(g: array2<real>): string
    reads g
  {
    Written(g, g.Length0, 0)
  }

  /** After the escape every complete line is `2 * width + 1` characters. */
  lemma {:induction false} WrittenLength(g: array2<real>, y: int, x: int)
    requires 0 <= y <= g.Length0 && 0 <= x <= g.Length1 && (y == g.Length0 ==> x == 0)
    ensures |Written(g, y, x)| == |ClearScreen| + y * (2 * g.Length1 + 1) + 2 * x
    decreases y, x
  {
    if x > 0 {
      WrittenLength(g, y, x - 1);
    } else if y > 0 {
      WrittenLength(g, y - 1, g.Length1);
      assert (y - 1) * (2 * g.Length1 + 1) + 2 * g.Length1 + 1 == y * (2 * g.Length1 + 1);
    }
  }

  /** Output is only ever appended: what was written by cell `(x, y)` is a
      prefix of what is written by any later cell `(x2, y2)`. */
  lemma {:induction false} WrittenExtends(g: array2<real>, y: int, x: int, y2: int, x2: int, k: int)
    requires 0 <= y <= g.Length0 && 0 <= x <= g.Length1 && (y == g.Length0 ==> x == 0)
    requires 0 <= y2 <= g.Length0 && 0 <= x2 <= g.Length1 && (y2 == g.Length0 ==> x2 == 0)
    requires y < y2 || (y == y2 && x <= x2)
    requires 0 <= k < |Written(g, y, x)|
    ensures k < |Written(g, y2, x2)| && Written(g, y2, x2)[k] == Written(g, y, x)[k]
    decreases y2, x2
  {
    if y == y2 && x == x2 {
    } else if x2 > 0 {
      WrittenExtends(g, y, x, y2, x2 - 1, k);
    } else {
      WrittenExtends(g, y, x, y2 - 1, g.Length1, k);
    }
  }

  /** The frame has one line of `2 * width` characters per row after the
      clear-screen escape; each cell is drawn as its glyph twice, and every
      line ends with a newline. */
  lemma FrameAt(g: array2<real>, y: int, x: int)
    requires 0 <= y < g.Length0 && 0 <= x < g.Length1
    ensures |Frame(g)| == |ClearScreen| + g.Length0 * (2 * g.Length1 + 1)
    ensures |ClearScreen| + y * (2 * g.Length1 + 1) + 2 * g.Length1 < |Frame(g)|
    ensures Frame(g)[|ClearScreen| + y * (2 * g.Length1 + 1) + 2 * x] == Glyph(g[y, x])
    ensures Frame(g)[|ClearScreen| + y * (2 * g.Length1 + 1) + 2 * x + 1] == Glyph(g[y, x])
    ensures Frame(g)[|ClearScreen| + y * (2 * g.Length1 + 1) + 2 * g.Length1] == '\n'
  {
    var w := g.Length1;
    var k := |Written(g, y, x)|;
    var eol := |Written(g, y, w)|;
    assert k == |ClearScreen| + y * (2 * w + 1) + 2 * x by {
      WrittenLength(g, y, x);
    }
    assert eol == |ClearScreen| + y * (2 * w + 1) + 2 * w by {
      WrittenLength(g, y, w);
    }
    assert |Frame(g)| == |ClearScreen| + g.Length0 * (2 * w + 1) by {
      WrittenLength(g, g.Length0, 0);
    }
    assert k + 1 < |Frame(g)| && Frame(g)[k] == Glyph(g[y, x]) && Frame(g)[k + 1] == Glyph(g[y, x]) by {
      var cell := Written(g, y, x + 1);
      assert cell[k] == Glyph(g[y, x]) && cell[k + 1] == Glyph(g[y, x]);
      WrittenExtends(g, y, x + 1, g.Length0, 0, k);
      WrittenExtends(g, y, x + 1, g.Length0, 0, k + 1);
    }
    assert eol < |Frame(g)| && Frame(g)[eol] == '\n' by {
      var line := Written(g, y + 1, 0);
      assert line[eol] == '\n';
      WrittenExtends(g, y + 1, 0, g.Length0, 0, eol);
    }
  }

  /** The plain branch of `display_grid`: row by row, cell by cell, two
      copies of the cell's glyph, then a newline. */
  method DisplayGrid(g: array2<real>) returns (out: string)
    requires Renderable(g)
    ensures out == Frame(g)
  {
    out := ClearScreen;
    var y := 0;
    while y < g.Length0
      invariant 0 <= y <= g.Length0
      invariant out == Written(g, y, 0)
    {
      var x := 0;
      while x < g.Length1
        invariant 0 <= x <= g.Length1
        invariant out == Written(g, y, x)
      {
        var c := LevelArray[GlyphIndex(g[y, x])];
        out := out + [c, c];
        x := x + 1;
      }
      out := out + ['\n'];
      y := y + 1;
    }
  }
}
