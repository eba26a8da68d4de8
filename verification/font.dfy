/**
 The static 5x7 bitmap font and its lookup (s1panel_freebsd.c:229-267).
 Each glyph has five column bytes; bit `row` of a column byte (bit 0 at the
 top) says whether that pixel is lit.
 */
module Font {

  datatype Glyph = Glyph(ch: char, cols: seq<bv8>)

  /** Every glyph has exactly five column bytes. */
  predicate WellFormed(g: Glyph) {
    |g.cols| == 5
  }

  /** The font table, in source order; the space glyph is entry 0. */
  const FONT: seq<Glyph> := [
    Glyph(' ', [0x00, 0x00, 0x00, 0x00, 0x00]),
    Glyph(':', [0x00, 0x14, 0x00, 0x14, 0x00]),
    Glyph('.', [0x00, 0x00, 0x00, 0x10, 0x00]),
    Glyph('/', [0x01, 0x02, 0x04, 0x08, 0x10]),
    Glyph('%', [0x61, 0x62, 0x04, 0x19, 0x31]),
    Glyph('0', [0x3E, 0x51, 0x49, 0x45, 0x3E]),
    Glyph('1', [0x00, 0x42, 0x7F, 0x40, 0x00]),
    Glyph('2', [0x62, 0x51, 0x49, 0x49, 0x46]),
    Glyph('3', [0x22, 0x41, 0x49, 0x49, 0x36]),
    Glyph('4', [0x18, 0x14, 0x12, 0x7F, 0x10]),
    Glyph('5', [0x27, 0x45, 0x45, 0x45, 0x39]),
    Glyph('6', [0x3E, 0x49, 0x49, 0x49, 0x32]),
    Glyph('7', [0x01, 0x71, 0x09, 0x05, 0x03]),
    Glyph('8', [0x36, 0x49, 0x49, 0x49, 0x36]),
    Glyph('9', [0x26, 0x49, 0x49, 0x49, 0x3E]),
    Glyph('A', [0x7E, 0x11, 0x11, 0x11, 0x7E]),
    Glyph('C', [0x3E, 0x41, 0x41, 0x41, 0x22]),
    Glyph('D', [0x7F, 0x41, 0x41, 0x22, 0x1C]),
    Glyph('E', [0x7F, 0x49, 0x49, 0x49, 0x41]),
    Glyph('F', [0x7F, 0x09, 0x09, 0x09, 0x01]),
    Glyph('I', [0x00, 0x41, 0x7F, 0x41, 0x00]),
    Glyph('K', [0x7F, 0x08, 0x14, 0x22, 0x41]),
    Glyph('M', [0x7F, 0x02, 0x0C, 0x02, 0x7F]),
    Glyph('P', [0x7F, 0x09, 0x09, 0x09, 0x06]),
    Glyph('R', [0x7F, 0x09, 0x19, 0x29, 0x46]),
    Glyph('S', [0x26, 0x49, 0x49, 0x49, 0x32]),
    Glyph('T', [0x01, 0x01, 0x7F, 0x01, 0x01]),
    Glyph('U', [0x3F, 0x40, 0x40, 0x40, 0x3F])
  ]

  /** Every entry of the table has five columns. */
  lemma FontWellFormed()
    ensures forall i :: 0 <= i < |FONT| ==> WellFormed(FONT[i])
  {
  }

  /** The character `c` has its own entry in `table`. */
  predicate In(table: seq<Glyph>, c: char) {
    exists i :: 0 <= i < |table| && table[i].ch == c
  }

  /** The character `c` has its own entry in the font. */
  predicate Supported(c: char) {
    In(FONT, c)
  }

  /** Whether the column byte `bits` lights row `row`: `(bits >> row) & 0x1`. */
  predicate BitOn(bits: bv8, row: int)
    requires 0 <= row < 7
  {
    (bits >> row) & 1 == 1
  }

  /** Whether the pixel at column `col`, row `row` of glyph `g` is lit. */
  predicate Lit(g: Glyph, col: int, row: int)
    requires WellFormed(g) && 0 <= col < 5 && 0 <= row < 7
  {
    BitOn(g.cols[col], row)
  }

  /** The linear search of `find_glyph` from entry `i` on: the index of the
      first entry for `c`, or `|table|` when the loop runs off the table. */
  function FindFrom(table: seq<Glyph>, c: char, i: nat): (k: nat)
    requires i <= |table|
    ensures i <= k <= |table|
    ensures k < |table| ==> table[k].ch == c
    ensures forall j :: i <= j < k ==> table[j].ch != c
    decreases |table| - i
  {
    if i == |table| then |table|
    else if table[i].ch == c then i
    else FindFrom(table, c, i + 1)
  }

  /** `find_glyph` over a non-empty table: the first entry for `c`, or
      entry 0 when there is none. */
  function Lookup(table: seq<Glyph>, c: char): (g: Glyph)
    requires |table| > 0
    ensures In(table, c) ==> g.ch == c && g == table[FindFrom(table, c, 0)]
    ensures !In(table, c) ==> g == table[0]
    ensures g in table
  {
    var k := FindFrom(table, c, 0);
    if k < |table| then table[k] else table[0]
  }

  /** `find_glyph`: the font entry for `c`, or the blank space glyph. */
  function FindGlyph(c: char): (g: Glyph)
    ensures WellFormed(g) && g in FONT
    ensures Supported(c) ==> g.ch == c
    ensures !Supported(c) ==> g == FONT[0]
  {
    FontWellFormed();
    Lookup(FONT, c)
  }

  /** An unsupported character renders exactly like a space: no lit pixel. */
  lemma UnsupportedIsBlank(c: char, col: int, row: int)
    requires !Supported(c) && 0 <= col < 5 && 0 <= row < 7
    ensures !Lit(FindGlyph(c), col, row)
  {
    var g := FindGlyph(c);
    assert g.cols[col] == 0;
  }
}
