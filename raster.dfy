/**
 * render_word: a word becomes a 7x52 bitmap. The word is upper-cased, its
 * glyphs are laid side by side in a column buffer with one blank column
 * between neighbours, and the buffer is copied into a blank grid at a
 * horizontal offset, dropping whatever falls outside the grid.
 */
module Raster {
  import opened Grid
  import opened Font

  /** str.upper on one character, for ASCII letters. */
  function Upper(c: char): (u: char)
    ensures 'a' <= c <= 'z' ==> u as int == c as int - 32
    ensures !('a' <= c <= 'z') ==> u == c
    ensures !('a' <= u <= 'z')
  {
    if 'a' <= c <= 'z' then (c as int - 32) as char else c
  }

  /** Upper-casing twice is upper-casing once. */
  lemma UpperIdempotent(w: string)
    ensures UpperWord(UpperWord(w)) == UpperWord(w)
  {
  }

  /** str.upper on a word, character by character. */
  function UpperWord(w: string): (u: string)
    ensures |u| == |w|
    ensures forall i :: 0 <= i < |w| ==> u[i] == Upper(w[i])
  {
    seq(|w|, i requires 0 <= i < |w| => Upper(w[i]))
  }

  /** int(b) for a glyph character. */
  function Bit(b: char): (v: int)
    requires IsBitChar(b)
    ensures v == 0 || v == 1
    ensures v == 1 <==> b == '1'
  {
    if b == '1' then 1 else 0
  }

  /** A glyph row as the ints it contributes to the buffer. */
  function RowBits(s: string): (bits: seq<int>)
    requires IsGlyphRow(s)
    ensures |bits| == GlyphWidth
    ensures forall j :: 0 <= j < |s| ==> bits[j] == Bit(s[j])
  {
    seq(|s|, j requires 0 <= j < |s| => Bit(s[j]))
  }

  /** Columns taken by one glyph and the gap after it. */
  const Pitch: nat := GlyphWidth + 1

  /** The number of buffer columns that n glyphs take: 6n - 1, or 0 for no glyph. */
  function BufferWidth(n: nat): nat
  {
    if n == 0 then 0 else Pitch * n - 1
  }

  /** Every element is a 5x7 glyph. */
  predicate AllGlyphs(gs: seq<Glyph>)
  {
    forall k :: 0 <= k < |gs| ==> IsGlyph(gs[k])
  }

  /** The glyphs of the characters of w, each looked up as font.get(ch, font[" "]). */
  function GlyphsOf(font: seq<(char, Glyph)>, w: string): (gs: seq<Glyph>)
    requires IsFont(font)
    ensures |gs| == |w| && AllGlyphs(gs)
    ensures forall k :: 0 <= k < |w| ==> gs[k] == GlyphFor(font, w[k])
  {
    seq(|w|, k requires 0 <= k < |w| => GlyphFor(font, w[k]))
  }

  /**
   * Row r of the column buffer for the glyphs gs: their rows side by side,
   * with a 0 between consecutive glyphs.
   */
  function BufferRow(gs: seq<Glyph>, r: nat): (row: seq<int>)
    requires AllGlyphs(gs) && r < Rows
    ensures |row| == BufferWidth(|gs|)
    ensures forall i :: 0 <= i < |row| ==> row[i] == 0 || row[i] == 1
    decreases |gs|
  {
    if |gs| == 0 then []
    else
      BufferRow(gs[..|gs| - 1], r) + (if |gs| > 1 then [0] else []) + RowBits(gs[|gs| - 1][r])
  }

  /** The whole column buffer: Rows rows of equal width. */
  function Buffer(gs: seq<Glyph>): (buf: seq<seq<int>>)
    requires AllGlyphs(gs)
    ensures |buf| == Rows
    ensures forall r :: 0 <= r < Rows ==> |buf[r]| == BufferWidth(|gs|)
  {
    seq(Rows, r requires 0 <= r < Rows => BufferRow(gs, r))
  }

  lemma DivModPitch(q: int, j: int)
    requires 0 <= j < Pitch
    ensures (Pitch * q + j) / Pitch == q && (Pitch * q + j) % Pitch == j
  {
  }

  /**
   * The buffer in closed form: column i belongs to glyph i / 6; its column
   * i % 6 is that glyph's column when it is below 5, and a blank gap when it is 5.
   */
  lemma {:induction false} BufferRowAt(gs: seq<Glyph>, r: nat, i: nat)
    requires AllGlyphs(gs) && r < Rows && i < BufferWidth(|gs|)
    ensures i / Pitch < |gs|
    ensures BufferRow(gs, r)[i] ==
      if i % Pitch == GlyphWidth then 0 else Bit(gs[i / Pitch][r][i % Pitch])
  {
    var n := |gs| - 1;
    var prev := gs[..n];
    var gap: seq<int> := if n > 0 then [0] else [];
    assert BufferRow(gs, r) == BufferRow(prev, r) + gap + RowBits(gs[n][r]);
    if i < BufferWidth(n) {
      BufferRowAt(prev, r, i);
      assert prev[i / Pitch] == gs[i / Pitch];
    } else if n > 0 && i == Pitch * n - 1 {
      DivModPitch(n - 1, GlyphWidth);
    } else {
      DivModPitch(n, i - Pitch * n);
    }
  }

  /**
   * The offset of buffer column 0 in the grid: centred (rounding down) when
   * the buffer fits, 0 when it does not, and 1 when not centring.
   */
  function Offset(width: nat, center: bool): (off: int)
    ensures off >= 0
    ensures center && width <= Cols ==> off + width <= Cols && off <= Cols - width - off <= off + 1
    ensures center && width > Cols ==> off == 0
    ensures !center ==> off == 1
  {
    if center then Max(0, (Cols as int - width as int) / 2) else 1
  }

  function Max(a: int, b: int): int
  {
    if a < b then b else a
  }

  /** A column buffer: Rows rows of one common width. */
  predicate IsBuffer(buf: seq<seq<int>>)
  {
    |buf| == Rows && forall r :: 0 <= r < Rows ==> |buf[r]| == |buf[0]|
  }

  /**
   * The buffer copied into a blank grid with its column 0 at grid column off:
   * grid cell (r, d) holds buffer cell (r, d - off) when that buffer column
   * exists, and 0 otherwise; buffer columns that land outside the grid are lost.
   */
  function Place(buf: seq<seq<int>>, off: int): (g: seq<seq<int>>)
    requires IsBuffer(buf)
    ensures IsGrid(g)
  {
    seq(Rows, r requires 0 <= r < Rows =>
      seq(Cols, d requires 0 <= d < Cols => if off <= d < off + |buf[0]| then buf[r][d - off] else 0))
  }

  /**
   * The placed grid holds buffer column c at grid column off + c whenever
   * that column exists, and 0 in every column the buffer does not cover.
   */
  lemma PlaceCopies(buf: seq<seq<int>>, off: int, r: nat, d: nat)
    requires IsBuffer(buf) && r < Rows && d < Cols
    ensures 0 <= d - off < |buf[0]| ==> Place(buf, off)[r][d] == buf[r][d - off]
    ensures d < off || off + |buf[0]| <= d ==> Place(buf, off)[r][d] == 0
  {
  }

  /**
   * The bitmap render_word returns when it draws with font; render_word
   * itself draws with FONT.
   */
  function Render(font: seq<(char, Glyph)>, word: string, center: bool): (g: seq<seq<int>>)
    requires IsFont(font)
    ensures IsGrid(g) && IsBinary(g)
  {
    var buf := Buffer(GlyphsOf(font, UpperWord(word)));
    Place(buf, Offset(|buf[0]|, center))
  }

  /** Adding glyph n to the first n glyphs extends each buffer row by a gap and its row. */
  lemma BufferRowStep(gs: seq<Glyph>, n: nat, r: nat)
    requires AllGlyphs(gs) && n < |gs| && r < Rows
    ensures BufferRow(gs[..n + 1], r) == BufferRow(gs[..n], r) + (if n > 0 then [0] else []) + RowBits(gs[n][r])
  {
    assert gs[..n + 1][..n] == gs[..n];
  }

  /** The gap loop of render_word: every buffer row gets one more 0. */
  method AppendGap(columns: seq<seq<int>>) returns (res: seq<seq<int>>)
    requires |columns| == Rows
    ensures |res| == Rows
    ensures forall r :: 0 <= r < Rows ==> res[r] == columns[r] + [0]
  {
    res := columns;
    for r := 0 to Rows
      invariant |res| == Rows
      invariant forall r' :: 0 <= r' < r ==> res[r'] == columns[r'] + [0]
      invariant forall r' :: r <= r' < Rows ==> res[r'] == columns[r']
    {
      res := res[r := res[r] + [0]];
    }
  }

  /** The extend loop of render_word: buffer row r gets row r of the glyph as ints. */
  method AppendGlyph(columns: seq<seq<int>>, glyph: Glyph) returns (res: seq<seq<int>>)
    requires |columns| == Rows && IsGlyph(glyph)
    ensures |res| == Rows
    ensures forall r :: 0 <= r < Rows ==> res[r] == columns[r] + RowBits(glyph[r])
  {
    res := columns;
    for r := 0 to Rows
      invariant |res| == Rows
      invariant forall r' :: 0 <= r' < r ==> res[r'] == columns[r'] + RowBits(glyph[r'])
      invariant forall r' :: r <= r' < Rows ==> res[r'] == columns[r']
    {
      res := res[r := res[r] + RowBits(glyph[r])];
    }
  }

  /** The column-building loop of render_word on the upper-cased word w. */
  method BuildColumns(font: seq<(char, Glyph)>, w: string) returns (columns: seq<seq<int>>)
    requires IsFont(font)
    ensures columns == Buffer(GlyphsOf(font, w))
  {
    ghost var gs := GlyphsOf(font, w);
    columns := seq(Rows, _ => []);
    for idx := 0 to |w|
      invariant |columns| == Rows
      invariant forall r :: 0 <= r < Rows ==> columns[r] == BufferRow(gs[..idx], r)
    {
      var glyph := GlyphFor(font, w[idx]);
      if idx > 0 {
        columns := AppendGap(columns);
      }
      columns := AppendGlyph(columns, glyph);
      forall r | 0 <= r < Rows
        ensures columns[r] == BufferRow(gs[..idx + 1], r)
      {
        BufferRowStep(gs, idx, r);
      }
    }
    assert gs[..|w|] == gs;
  }

  /** The copying loop of render_word: the buffer goes into a blank grid at offset. */
  method CopyAtOffset(columns: seq<seq<int>>, offset: int) returns (bitmap: seq<seq<int>>)
    requires IsBuffer(columns) && offset >= 0
    ensures bitmap == Place(columns, offset)
  {
    bitmap := Blank();
    ghost var spec := Place(columns, offset);
    for r := 0 to Rows
      invariant |bitmap| == Rows
      invariant forall r' :: 0 <= r' < r ==> bitmap[r'] == spec[r']
      invariant forall r' :: r <= r' < Rows ==> bitmap[r'] == Blank()[r']
    {
      for c := 0 to |columns[r]|
        invariant |bitmap| == Rows && |bitmap[r]| == Cols
        invariant forall r' :: 0 <= r' < r ==> bitmap[r'] == spec[r']
        invariant forall r' :: r < r' < Rows ==> bitmap[r'] == Blank()[r']
        invariant forall d :: 0 <= d < Cols ==>
          bitmap[r][d] == if offset <= d < offset + c then columns[r][d - offset] else 0
      {
        var dest := offset + c;
        if 0 <= dest < Cols {
          bitmap := bitmap[r := bitmap[r][dest := columns[r][c]]];
        }
      }
      assert bitmap[r] == spec[r];
    }
  }

  /** The body of render_word, drawing with font. */
  method RenderWith(font: seq<(char, Glyph)>, word: string, center: bool) returns (bitmap: seq<seq<int>>)
    requires IsFont(font)
    ensures bitmap == Render(font, word, center)
  {
    var w := UpperWord(word);
    var columns := BuildColumns(font, w);
    var textWidth := |columns[0]|;
    var offset := if center then Max(0, (Cols as int - textWidth as int) / 2) else 1;
    bitmap := CopyAtOffset(columns, offset);
  }

  /** render_word(word, center): drawing with FONT. */
  method RenderWord(word: string, center: bool) returns (bitmap: seq<seq<int>>)
    ensures IsFont(FontTable) && bitmap == Render(FontTable, word, center)
  {
    FontTableIsFont();
    bitmap := RenderWith(FontTable, word, center);
  }
}
