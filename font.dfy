/**
 * The 5x7 bitmap font: each supported character maps to seven rows
 * (top to bottom) of five characters, '0' for off and '1' for on.
 */
module Font {

  datatype Option<T> = None | Some(value: T)

  const GlyphHeight: nat := 7
  const GlyphWidth: nat := 5

  /** A glyph as the table writes it: a list of row strings. */
  type Glyph = seq<string>

  predicate IsBitChar(b: char)
  {
    b == '0' || b == '1'
  }

  /** Five '0'/'1' characters. */
  predicate IsGlyphRow(s: string)
  {
    |s| == GlyphWidth && forall j :: 0 <= j < |s| ==> IsBitChar(s[j])
  }

  /** The 5x7 geometry: seven rows of five '0'/'1' characters. */
  predicate IsGlyph(g: Glyph)
  {
    |g| == GlyphHeight && forall r :: 0 <= r < |g| ==> IsGlyphRow(g[r])
  }

  /** IsGlyphRow written out character by character, for checking literal rows. */
  predicate FiveBits(s: string)
  {
    |s| == GlyphWidth &&
    IsBitChar(s[0]) && IsBitChar(s[1]) && IsBitChar(s[2]) && IsBitChar(s[3]) && IsBitChar(s[4])
  }

  /** IsGlyph written out row by row, for checking literal glyphs. */
  predicate SevenRowsOfFiveBits(g: Glyph)
  {
    |g| == GlyphHeight &&
    FiveBits(g[0]) && FiveBits(g[1]) && FiveBits(g[2]) && FiveBits(g[3]) &&
    FiveBits(g[4]) && FiveBits(g[5]) && FiveBits(g[6])
  }

  lemma SevenRowsIsGlyph(g: Glyph)
    requires SevenRowsOfFiveBits(g)
    ensures IsGlyph(g)
  {
    forall r | 0 <= r < |g|
      ensures IsGlyphRow(g[r])
    {
      assert FiveBits(g[r]) by {
        if r == 0 {} else if r == 1 {} else if r == 2 {} else if r == 3 {}
        else if r == 4 {} else if r == 5 {} else {}
      }
    }
  }

  /**
   * FONT: the table's entries in the order it lists them, each a character
   * and its glyph.
   */
  const FontTable: seq<(char, Glyph)> := [
    (' ', ["00000", "00000", "00000", "00000", "00000", "00000", "00000"]),
    ('A', ["01110", "10001", "10001", "11111", "10001", "10001", "10001"]),
    ('B', ["11110", "10001", "10001", "11110", "10001", "10001", "11110"]),
    ('C', ["01110", "10001", "10000", "10000", "10000", "10001", "01110"]),
    ('D', ["11100", "10010", "10001", "10001", "10001", "10010", "11100"]),
    ('E', ["11111", "10000", "10000", "11110", "10000", "10000", "11111"]),
    ('F', ["11111", "10000", "10000", "11110", "10000", "10000", "10000"]),
    ('G', ["01110", "10001", "10000", "10111", "10001", "10001", "01110"]),
    ('H', ["10001", "10001", "10001", "11111", "10001", "10001", "10001"]),
    ('I', ["11111", "00100", "00100", "00100", "00100", "00100", "11111"]),
    ('J', ["00111", "00010", "00010", "00010", "00010", "10010", "01100"]),
    ('K', ["10001", "10010", "10100", "11000", "10100", "10010", "10001"]),
    ('L', ["10000", "10000", "10000", "10000", "10000", "10000", "11111"]),
    ('M', ["10001", "11011", "10101", "10001", "10001", "10001", "10001"]),
    ('N', ["10001", "11001", "10101", "10011", "10001", "10001", "10001"]),
    ('O', ["01110", "10001", "10001", "10001", "10001", "10001", "01110"]),
    ('P', ["11110", "10001", "10001", "11110", "10000", "10000", "10000"]),
    ('Q', ["01110", "10001", "10001", "10001", "10101", "10010", "01101"]),
    ('R', ["11110", "10001", "10001", "11110", "10100", "10010", "10001"]),
    ('S', ["01111", "10000", "10000", "01110", "00001", "00001", "11110"]),
    ('T', ["11111", "00100", "00100", "00100", "00100", "00100", "00100"]),
    ('U', ["10001", "10001", "10001", "10001", "10001", "10001", "01110"]),
    ('V', ["10001", "10001", "10001", "10001", "10001", "01010", "00100"]),
    ('W', ["10001", "10001", "10001", "10101", "10101", "11011", "10001"]),
    ('X', ["10001", "01010", "01010", "00100", "01010", "01010", "10001"]),
    ('Y', ["10001", "10001", "01010", "00100", "00100", "00100", "00100"]),
    ('Z', ["11111", "00001", "00010", "00100", "01000", "10000", "11111"]),
    ('0', ["01110", "10001", "10011", "10101", "11001", "10001", "01110"]),
    ('1', ["00100", "01100", "00100", "00100", "00100", "00100", "01110"]),
    ('2', ["01110", "10001", "00001", "00110", "01000", "10000", "11111"]),
    ('3', ["11110", "00001", "00001", "01110", "00001", "00001", "11110"]),
    ('4', ["00010", "00110", "01010", "10010", "11111", "00010", "00010"]),
    ('5', ["11111", "10000", "10000", "11110", "00001", "00001", "11110"]),
    ('6', ["01110", "10000", "10000", "11110", "10001", "10001", "01110"]),
    ('7', ["11111", "00001", "00010", "00100", "01000", "01000", "01000"]),
    ('8', ["01110", "10001", "10001", "01110", "10001", "10001", "01110"]),
    ('9', ["01110", "10001", "10001", "01111", "00001", "00001", "01110"]),
    ('!', ["00100", "00100", "00100", "00100", "00100", "00000", "00100"]),
    ('?', ["01110", "10001", "00001", "00110", "00100", "00000", "00100"]),
    ('.', ["00000", "00000", "00000", "00000", "00000", "00000", "00100"]),
    (',', ["00000", "00000", "00000", "00000", "00110", "00100", "01000"]),
    ('-', ["00000", "00000", "00000", "11111", "00000", "00000", "00000"]),
    ('\'', ["00100", "00100", "00000", "00000", "00000", "00000", "00000"]),
    ('#', ["01010", "01010", "11111", "01010", "11111", "01010", "01010"])
  ]

  /**
   * dict.get on a table written as (key, glyph) pairs: the glyph stored
   * under c, or None when no entry has key c.
   */
  function Lookup(table: seq<(char, Glyph)>, c: char): (r: Option<Glyph>)
    ensures r.None? <==> forall i :: 0 <= i < |table| ==> table[i].0 != c
    ensures r.Some? ==> (c, r.value) in table
    decreases |table|
  {
    if |table| == 0 then None
    else if table[0].0 == c then Some(table[0].1)
    else Lookup(table[1..], c)
  }

  /** The keys of a table, in order. */
  function Keys(table: seq<(char, Glyph)>): (ks: string)
    ensures |ks| == |table|
    ensures forall i :: 0 <= i < |table| ==> ks[i] == table[i].0
  {
    seq(|table|, i requires 0 <= i < |table| => table[i].0)
  }

  /** Lookup finds a glyph exactly for the keys of the table. */
  lemma {:induction false} LookupFindsKeys(table: seq<(char, Glyph)>, c: char)
    ensures Lookup(table, c).Some? <==> c in Keys(table)
    decreases |table|
  {
    if |table| > 0 {
      LookupFindsKeys(table[1..], c);
      assert Keys(table) == [table[0].0] + Keys(table[1..]);
    }
  }

  /** Lookup returns one of the table's glyphs. */
  lemma {:induction false} LookupReturnsGlyph(table: seq<(char, Glyph)>, c: char)
    requires forall i :: 0 <= i < |table| ==> IsGlyph(table[i].1)
    ensures Lookup(table, c).Some? ==> IsGlyph(Lookup(table, c).value)
    decreases |table|
  {
    if |table| > 0 && table[0].0 != c {
      LookupReturnsGlyph(table[1..], c);
    }
  }

  /** t holds consecutive character codes starting at first. */
  predicate IsRun(t: string, first: char)
  {
    forall i :: 0 <= i < |t| ==> t[i] as int == first as int + i
  }

  const Letters: string := "ABCDEFGHIJKLMNOPQRSTUVWXYZ"
  const Digits: string := "0123456789"
  /** The punctuation marks, in table order. */
  const Marks: string := "!?.,-'#"

  /** The supported characters: space, A-Z, 0-9 and seven punctuation marks. */
  const SupportedChars: string := " " + Letters + Digits + Marks

  /** Space and the punctuation marks of the table. */
  predicate IsSpaceOrMark(c: char)
  {
    c == ' ' || c == '!' || c == '?' || c == '.' || c == ',' || c == '-' || c == '\'' || c == '#'
  }

  /** The characters the table has a glyph for. */
  predicate IsSupported(c: char)
  {
    ('A' <= c <= 'Z') || ('0' <= c <= '9') || IsSpaceOrMark(c)
  }

  /** The table starts with the space, then A to Z. */
  lemma LetterKeys()
    ensures |FontTable| == 44 && FontTable[0].0 == ' '
    ensures forall i :: 1 <= i < 27 ==> FontTable[i].0 == Letters[i - 1]
  {
  }

  /** After the letters come 0 to 9, then the marks. */
  lemma DigitAndMarkKeys()
    ensures |FontTable| == 44
    ensures forall i :: 27 <= i < 37 ==> FontTable[i].0 == Digits[i - 27]
    ensures forall i :: 37 <= i < 44 ==> FontTable[i].0 == Marks[i - 37]
  {
  }

  /** The table lists its keys in the order of SupportedChars. */
  lemma KeyOrder()
    ensures |FontTable| == |SupportedChars|
    ensures forall i :: 0 <= i < |FontTable| ==> FontTable[i].0 == SupportedChars[i]
  {
    LetterKeys();
    DigitAndMarkKeys();
  }

  /** The keys of FONT, in order, are SupportedChars. */
  lemma TableKeys()
    ensures Keys(FontTable) == SupportedChars
  {
    KeyOrder();
  }

  lemma LettersRun()
    ensures |Letters| == 26 && IsRun(Letters, 'A')
  {
  }

  lemma DigitsRun()
    ensures |Digits| == 10 && IsRun(Digits, '0')
  {
  }

  /** The space, A to Z, 0 to 9, then the seven marks, in that order. */
  predicate HasKeyLayout(s: string)
  {
    |s| == 44 && s[0] == ' ' && IsRun(s[1..27], 'A') && IsRun(s[27..37], '0') && s[37..] == Marks
  }

  lemma SupportedCharsLayout()
    ensures HasKeyLayout(SupportedChars)
  {
    LettersRun();
    DigitsRun();
    var s := SupportedChars;
    assert s[1..27] == Letters;
    assert s[27..37] == Digits;
    assert s[37..] == Marks;
  }

  /** A string laid out that way holds exactly the supported characters. */
  lemma LayoutHoldsSupported(s: string, c: char)
    requires HasKeyLayout(s)
    ensures c in s <==> IsSupported(c)
  {
    var marks := s[37..];
    if IsSupported(c) {
      if 'A' <= c <= 'Z' {
        assert s[1..27][c as int - 'A' as int] == c;
      } else if '0' <= c <= '9' {
        assert s[27..37][c as int - '0' as int] == c;
      } else if c != ' ' {
        assert c in marks;
      }
    }
    if c in s {
      var i :| 0 <= i < |s| && s[i] == c;
      if 1 <= i < 27 {
        assert s[1..27][i - 1] == c;
      } else if 27 <= i < 37 {
        assert s[27..37][i - 27] == c;
      } else if i >= 37 {
        assert marks[i - 37] == c;
      }
    }
  }

  /** SupportedChars holds exactly the characters IsSupported accepts. */
  lemma SupportedCharsAre(c: char)
    ensures c in SupportedChars <==> IsSupported(c)
  {
    SupportedCharsLayout();
    LayoutHoldsSupported(SupportedChars, c);
  }

  /** The keys of the table are exactly the supported characters. */
  lemma FontKeys(c: char)
    ensures Lookup(FontTable, c).Some? <==> IsSupported(c)
  {
    LookupFindsKeys(FontTable, c);
    TableKeys();
    SupportedCharsAre(c);
  }

  // The geometry of the table, checked five entries at a time: one lemma
  // over all 44 literal entries is too large a query for the solver.

  lemma EntriesWellFormed(i: nat)
    requires i < |FontTable|
    ensures SevenRowsOfFiveBits(FontTable[i].1)
  {
    if i < 5 {
      EntriesFrom0(i);
    } else if i < 10 {
      EntriesFrom5(i);
    } else if i < 15 {
      EntriesFrom10(i);
    } else if i < 20 {
      EntriesFrom15(i);
    } else if i < 25 {
      EntriesFrom20(i);
    } else if i < 30 {
      EntriesFrom25(i);
    } else if i < 35 {
      EntriesFrom30(i);
    } else if i < 40 {
      EntriesFrom35(i);
    } else {
      EntriesFrom40(i);
    }
  }

  lemma EntriesFrom0(i: nat)
    requires i < 5
    ensures SevenRowsOfFiveBits(FontTable[i].1)
  {
  }

  lemma EntriesFrom5(i: nat)
    requires 5 <= i < 10
    ensures SevenRowsOfFiveBits(FontTable[i].1)
  {
  }

  lemma EntriesFrom10(i: nat)
    requires 10 <= i < 15
    ensures SevenRowsOfFiveBits(FontTable[i].1)
  {
  }

  lemma EntriesFrom15(i: nat)
    requires 15 <= i < 20
    ensures SevenRowsOfFiveBits(FontTable[i].1)
  {
  }

  lemma EntriesFrom20(i: nat)
    requires 20 <= i < 25
    ensures SevenRowsOfFiveBits(FontTable[i].1)
  {
  }

  lemma EntriesFrom25(i: nat)
    requires 25 <= i < 30
    ensures SevenRowsOfFiveBits(FontTable[i].1)
  {
  }

  lemma EntriesFrom30(i: nat)
    requires 30 <= i < 35
    ensures SevenRowsOfFiveBits(FontTable[i].1)
  {
  }

  lemma EntriesFrom35(i: nat)
    requires 35 <= i < 40
    ensures SevenRowsOfFiveBits(FontTable[i].1)
  {
  }

  lemma EntriesFrom40(i: nat)
    requires 40 <= i < |FontTable|
    ensures SevenRowsOfFiveBits(FontTable[i].1)
  {
  }

  /**
   * A font render_word can use: every glyph is 5x7 and the space has an
   * entry, which stands in for every character without one.
   */
  predicate IsFont(font: seq<(char, Glyph)>)
  {
    (forall i :: 0 <= i < |font| ==> IsGlyph(font[i].1)) && Lookup(font, ' ').Some?
  }

  /** The space is the table's first key. */
  lemma SpaceIsFirstEntry()
    ensures Lookup(FontTable, ' ') == Some(FontTable[0].1)
  {
    assert FontTable[0].0 == ' ';
  }

  /** A is the table's second key. */
  lemma AIsSecondEntry()
    ensures Lookup(FontTable, 'A') == Some(FontTable[1].1)
  {
    assert FontTable[0].0 == ' ' && FontTable[1].0 == 'A';
    assert FontTable[1..][0] == FontTable[1];
  }

  /** The rows of A: the top, the crossbar and the sides. */
  lemma RowsOfA(r: nat)
    requires r < 7
    ensures FontTable[1].1[r] == if r == 0 then "01110" else if r == 3 then "11111" else "10001"
  {
  }

  /** Every row of the first entry is "00000". */
  lemma FirstEntryBlank()
    ensures forall r, j :: 0 <= r < 7 && 0 <= j < 5 ==> FontTable[0].1[r][j] == '0'
  {
  }

  /** FONT is a usable font: every entry is seven rows of five '0'/'1' characters. */
  lemma FontTableIsFont()
    ensures IsFont(FontTable)
  {
    forall i | 0 <= i < |FontTable|
      ensures IsGlyph(FontTable[i].1)
    {
      EntriesWellFormed(i);
      SevenRowsIsGlyph(FontTable[i].1);
    }
    SpaceIsFirstEntry();
  }

  /** FONT[" "] exists, is 5x7 and is blank. */
  lemma SpaceGlyphBlank()
    ensures Lookup(FontTable, ' ').Some? && IsGlyph(Lookup(FontTable, ' ').value)
    ensures forall r, j :: 0 <= r < GlyphHeight && 0 <= j < GlyphWidth ==> Lookup(FontTable, ' ').value[r][j] == '0'
  {
    SpaceIsFirstEntry();
    FirstEntryBlank();
    FontTableIsFont();
  }

  /** font.get(c, font[" "]): the glyph of c, or the space's glyph when c has none. */
  function GlyphFor(font: seq<(char, Glyph)>, c: char): (g: Glyph)
    requires IsFont(font)
    ensures IsGlyph(g)
    ensures Lookup(font, c).Some? ==> g == Lookup(font, c).value
    ensures Lookup(font, c).None? ==> g == Lookup(font, ' ').value
  {
    LookupReturnsGlyph(font, c);
    LookupReturnsGlyph(font, ' ');
    match Lookup(font, c)
    case Some(g) => g
    case None => Lookup(font, ' ').value
  }

  /** In FONT, a supported character gets its own entry. */
  lemma GlyphForSupported(c: char)
    requires IsSupported(c)
    ensures Lookup(FontTable, c).Some?
    ensures IsFont(FontTable) && GlyphFor(FontTable, c) == Lookup(FontTable, c).value
  {
    FontKeys(c);
    FontTableIsFont();
  }

  /** In FONT, every unsupported character gets the glyph of the space. */
  lemma GlyphForUnsupported(c: char)
    requires !IsSupported(c)
    ensures IsFont(FontTable) && GlyphFor(FontTable, c) == GlyphFor(FontTable, ' ')
  {
    FontKeys(c);
    FontKeys(' ');
    FontTableIsFont();
  }
}
