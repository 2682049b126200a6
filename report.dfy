/**
 * The two values print_bitmap computes under its drawing: the number of lit
 * pixels and the length heuristic that decides whether to warn about
 * clipping.
 */
module Report {
  import opened Grid
  import opened Font
  import opened Raster
  import opened Calendar
  import opened DateMapper

  /** GRAPH_COLS // 6: the most characters the heuristic lets through. */
  const MaxFittingChars: nat := Cols / 6

  /** fits = len(word) <= GRAPH_COLS // 6 */
  function Fits(word: string): (fits: bool)
    ensures fits <==> |word| <= 8
  {
    |word| <= MaxFittingChars
  }

  /** The line print_bitmap writes under the box. */
  datatype Note =
    | ClipWarning(length: nat)  // "'word' is long (length chars) - some letters may be clipped!"
    | ActivePixels(count: int)  // "(count active pixels)"

  /** The note print_bitmap(word, bitmap) ends with. */
  function BitmapNote(word: string, bitmap: seq<seq<int>>): (note: Note)
    ensures note.ClipWarning? <==> |word| > 8
    ensures note.ClipWarning? ==> note.length == |word|
    ensures note.ActivePixels? ==> note.count == GridSum(bitmap)
  {
    var lit := GridSum(bitmap);
    if !Fits(word) then ClipWarning(|word|) else ActivePixels(lit)
  }

  /**
   * For a word of n ASCII characters, the heuristic is exact: the word fits
   * exactly when the whole column buffer lands inside the grid, whether
   * render_word centres it or starts it at column 1.
   */
  lemma FitsIffUnclipped(word: string, center: bool)
    ensures Fits(word) <==> Offset(BufferWidth(|word|), center) + BufferWidth(|word|) <= Cols
  {
  }

  /**
   * On a bitmap render_word produced, lit counts the lit cells, and it is
   * the number of dates bitmap_to_dates returns for any year it accepts.
   */
  lemma LitIsDateCount(font: seq<(char, Glyph)>, word: string, center: bool, origin: Day)
    requires IsFont(font)
    ensures GridSum(Render(font, word, center)) == LitCells(Render(font, word, center))
    ensures GridSum(Render(font, word, center)) == |LitDays(Render(font, word, center), origin, Cells)|
  {
    var g := Render(font, word, center);
    BinaryLitCells(g);
    DateCount(g, origin);
  }
}
