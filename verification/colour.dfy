/**
 RGB565 colour packing and the 16-bit byte swap applied when a pixel is
 stored (s1panel_freebsd.c:48-59). Colours are 16-bit words: 5 bits red
 (bits 15..11), 6 bits green (10..5), 5 bits blue (4..0).
 */
module Colour {

  type Colour = bv16

  /** `bswap16`: exchange the two bytes of a 16-bit word. */
  function Bswap16(v: bv16): (r: bv16)
    ensures r >> 8 == v & 0xFF
    ensures r & 0xFF == v >> 8
  {
    (v >> 8) | (v << 8)
  }

  /** Swapping twice restores the word, so a stored pixel's colour is recoverable. */
  lemma Bswap16Involution(v: bv16)
    ensures Bswap16(Bswap16(v)) == v
  {
  }

  /** `rgb565`: pack three channels, each masked to its field width. */
  function Rgb565(r5: bv8, g6: bv8, b5: bv8): (c: Colour)
    ensures c >> 11 == (r5 & 0x1F) as bv16
    ensures (c >> 5) & 0x3F == (g6 & 0x3F) as bv16
    ensures c & 0x1F == (b5 & 0x1F) as bv16
  {
    (((r5 & 0x1F) as bv16) << 11) | (((g6 & 0x3F) as bv16) << 5) | ((b5 & 0x1F) as bv16)
  }

  /** `rgb_u8`: keep the top 5/6/5 bits of 8-bit channels. */
  function RgbU8(r: bv8, g: bv8, b: bv8): (c: Colour)
    ensures c >> 11 == (r >> 3) as bv16
    ensures (c >> 5) & 0x3F == (g >> 2) as bv16
    ensures c & 0x1F == (b >> 3) as bv16
  {
    Rgb565(r >> 3, g >> 2, b >> 3)
  }

  /** White and black, as the renderer's text and background colours use them. */
  lemma RgbU8Extremes()
    ensures RgbU8(255, 255, 255) == 0xFFFF
    ensures RgbU8(0, 0, 0) == 0
  {
  }
}
