/**
 * What render_word's bitmap looks like, stated glyph by glyph rather than
 * through the column buffer.
 */
module RasterProps {
  import opened Grid
  import opened Font
  import opened Raster

  /** The empty word leaves the grid blank. */
  lemma RenderEmpty(font: seq<(char, Glyph)>, center: bool)
    requires IsFont(font)
    ensures Render(font, "", center) == Blank()
  {
    var g := Render(font, "", center);
    forall r | 0 <= r < Rows
      ensures g[r] == Blank()[r]
    {
    }
  }

  /** Render is the placed buffer of the upper-cased word's glyphs. */
  lemma RenderIsPlacedBuffer(font: seq<(char, Glyph)>, word: string, center: bool)
    requires IsFont(font)
    ensures |Buffer(GlyphsOf(font, UpperWord(word)))[0]| == BufferWidth(|word|)
    ensures Render(font, word, center)
         == Place(Buffer(GlyphsOf(font, UpperWord(word))), Offset(BufferWidth(|word|), center))
  {
  }

  /** The k-th glyph of the upper-cased word is the glyph of its k-th character, upper-cased. */
  lemma GlyphOfUpper(font: seq<(char, Glyph)>, word: string, k: nat)
    requires IsFont(font) && k < |word|
    ensures GlyphsOf(font, UpperWord(word))[k] == GlyphFor(font, Upper(word[k]))
  {
  }

  /** Column j of glyph k of a placed buffer sits at grid column off + 6k + j. */
  lemma PlacedGlyphColumn(gs: seq<Glyph>, off: int, r: nat, k: nat, j: nat)
    requires AllGlyphs(gs) && r < Rows && k < |gs| && j < GlyphWidth
    requires 0 <= off && off + Pitch * k + j < Cols
    ensures Place(Buffer(gs), off)[r][off + Pitch * k + j] == Bit(gs[k][r][j])
  {
    var i := Pitch * k + j;
    BufferRowAt(gs, r, i);
    DivModPitch(k, j);
    PlaceCopies(Buffer(gs), off, r, off + i);
  }

  /**
   * Column j of the k-th glyph lands in grid column offset + 6k + j whenever
   * that column is inside the grid.
   */
  lemma RenderGlyphColumn(font: seq<(char, Glyph)>, word: string, center: bool, r: nat, k: nat, j: nat)
    requires IsFont(font)
    requires r < Rows && k < |word| && j < GlyphWidth
    requires Offset(BufferWidth(|word|), center) + Pitch * k + j < Cols
    ensures Render(font, word, center)[r][Offset(BufferWidth(|word|), center) + Pitch * k + j]
            == Bit(GlyphFor(font, Upper(word[k]))[r][j])
  {
    var gs := GlyphsOf(font, UpperWord(word));
    RenderIsPlacedBuffer(font, word, center);
    GlyphOfUpper(font, word, k);
    PlacedGlyphColumn(gs, Offset(BufferWidth(|word|), center), r, k, j);
  }

  /**
   * Every grid cell that is not a glyph column is 0: left of the text, right
   * of it, and the one-column gaps between glyphs.
   */
  lemma RenderBlankCell(font: seq<(char, Glyph)>, word: string, center: bool, r: nat, d: nat)
    requires IsFont(font)
    requires r < Rows && d < Cols
    requires var off := Offset(BufferWidth(|word|), center);
      d < off || off + BufferWidth(|word|) <= d || (d - off) % Pitch == GlyphWidth
    ensures Render(font, word, center)[r][d] == 0
  {
    var gs := GlyphsOf(font, UpperWord(word));
    var off := Offset(BufferWidth(|word|), center);
    if off <= d < off + BufferWidth(|word|) {
      BufferRowAt(gs, r, d - off);
    }
  }

  /**
   * Buffer column c lands in grid column offset + c, and the offset is never
   * negative: nothing is cut on the left, and a buffer column is lost only
   * when it falls past the right edge, which a centred word that fits never does.
   */
  lemma RenderClipsOnlyRight(font: seq<(char, Glyph)>, word: string, center: bool, r: nat, c: nat)
    requires IsFont(font)
    requires r < Rows && c < BufferWidth(|word|)
    ensures var off := Offset(BufferWidth(|word|), center);
      off >= 0 &&
      (off + c < Cols ==> Render(font, word, center)[r][off + c] == Buffer(GlyphsOf(font, UpperWord(word)))[r][c]) &&
      (center && BufferWidth(|word|) <= Cols ==> off + c < Cols)
  {
  }

  /**
   * Two words whose characters look up the same glyphs, position by position,
   * render to the same bitmap.
   */
  lemma RenderSameGlyphs(font: seq<(char, Glyph)>, w1: string, w2: string, center: bool)
    requires IsFont(font)
    requires |w1| == |w2|
    requires forall k :: 0 <= k < |w1| ==> GlyphFor(font, Upper(w1[k])) == GlyphFor(font, Upper(w2[k]))
    ensures Render(font, w1, center) == Render(font, w2, center)
  {
    var gs1 := GlyphsOf(font, UpperWord(w1));
    var gs2 := GlyphsOf(font, UpperWord(w2));
    assert gs1 == gs2;
  }

  /** Lower-case letters render exactly like their upper-case forms. */
  lemma RenderCaseInsensitive(font: seq<(char, Glyph)>, w1: string, w2: string, center: bool)
    requires IsFont(font)
    requires |w1| == |w2|
    requires forall k :: 0 <= k < |w1| ==> Upper(w1[k]) == Upper(w2[k])
    ensures Render(font, w1, center) == Render(font, w2, center)
  {
    RenderSameGlyphs(font, w1, w2, center);
  }

  /** A character the font has no entry for renders exactly like a space. */
  lemma RenderMissingAsSpace(font: seq<(char, Glyph)>, word: string, k: nat, center: bool)
    requires IsFont(font)
    requires k < |word| && Lookup(font, Upper(word[k])).None?
    ensures Render(font, word[k := ' '], center) == Render(font, word, center)
  {
    RenderSameGlyphs(font, word[k := ' '], word, center);
  }

  /** With FONT, a character outside A-Z, a-z, 0-9 and the marks renders like a space. */
  lemma RenderUnsupportedAsSpace(word: string, k: nat, center: bool)
    requires k < |word| && !IsSupported(Upper(word[k]))
    ensures IsFont(FontTable)
    ensures Render(FontTable, word[k := ' '], center) == Render(FontTable, word, center)
  {
    FontTableIsFont();
    FontKeys(Upper(word[k]));
    RenderMissingAsSpace(FontTable, word, k, center);
  }

  /**
   * A one-character word: its glyph sits in grid columns 1 to 5 without
   * centring and in columns 23 to 27 centred; every other cell is 0.
   */
  lemma RenderOneChar(font: seq<(char, Glyph)>, c: char, r: nat, d: nat)
    requires IsFont(font) && r < Rows && d < Cols
    ensures Render(font, [c], false)[r][d] ==
      if 1 <= d <= 5 then Bit(GlyphFor(font, Upper(c))[r][d - 1]) else 0
    ensures Render(font, [c], true)[r][d] ==
      if 23 <= d <= 27 then Bit(GlyphFor(font, Upper(c))[r][d - 23]) else 0
  {
    var gs := GlyphsOf(font, UpperWord([c]));
    assert BufferRow(gs, r) == BufferRow([], r) + [] + RowBits(gs[0][r]);
  }

  /**
   * The glyph for A as 0/1 values: the top row lights its three middle
   * columns, the crossbar (row 3) all five, every other row its two sides.
   */
  function ABit(r: nat, j: nat): int
  {
    if r == 0 then (if j == 0 || j == 4 then 0 else 1)
    else if r == 3 then 1
    else if j == 0 || j == 4 then 1 else 0
  }

  /** FONT["A"], as 0/1 values. */
  lemma GlyphOfA(r: nat, j: nat)
    requires r < Rows && j < GlyphWidth
    ensures IsFont(FontTable) && Bit(GlyphFor(FontTable, 'A')[r][j]) == ABit(r, j)
  {
    FontTableIsFont();
    GlyphForSupported('A');
    AIsSecondEntry();
    RowsOfA(r);
    ABitsOfRow(GlyphFor(FontTable, 'A')[r], r, j);
  }

  lemma ABitsOfRow(row: string, r: nat, j: nat)
    requires j < GlyphWidth
    requires row == if r == 0 then "01110" else if r == 3 then "11111" else "10001"
    ensures IsBitChar(row[j]) && Bit(row[j]) == ABit(r, j)
  {
  }

  /**
   * render_word("A", False) lights the A glyph in grid columns 1 to 5, and
   * render_word("A", True) in columns 23 to 27; every other cell is 0.
   */
  lemma RenderAExample(r: nat, d: nat)
    requires r < Rows && d < Cols
    ensures IsFont(FontTable)
    ensures Render(FontTable, "A", false)[r][d] == if 1 <= d <= 5 then ABit(r, d - 1) else 0
    ensures Render(FontTable, "A", true)[r][d] == if 23 <= d <= 27 then ABit(r, d - 23) else 0
  {
    FontTableIsFont();
    RenderOneChar(FontTable, 'A', r, d);
    if 1 <= d <= 5 {
      GlyphOfA(r, d - 1);
    }
    if 23 <= d <= 27 {
      GlyphOfA(r, d - 23);
    }
  }
}
