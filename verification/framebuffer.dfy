/**
 The 320x170 framebuffer and the bounds-checked pixel store
 (s1panel_freebsd.c:35-38, 269-274).

 The source keeps the frame as 108800 bytes and stores each pixel through a
 `uint16_t*` as `bswap16(color)`. Here the frame is the sequence of those
 54400 16-bit words, row-major. `WireBytes` gives the bytes the encoder sends,
 assuming a little-endian host (the low byte of a word comes first in memory).
 */
module Framebuffer {
  import opened Colour
  import opened CArith

  const WIDTH: int := 320
  const HEIGHT: int := 170
  const PIXELS: int := WIDTH * HEIGHT
  /** `FRAME_BYTES`: two bytes per pixel. */
  const FRAME_BYTES: int := PIXELS * 2

  type Frame = seq<bv16>

  predicate ValidFrame(fb: Frame) {
    |fb| == PIXELS
  }

  predicate InBounds(x: int, y: int) {
    0 <= x < WIDTH && 0 <= y < HEIGHT
  }

  /** Word index of pixel (x, y), row-major. */
  function Idx(x: int, y: int): (i: int)
    requires InBounds(x, y)
    ensures 0 <= i < PIXELS
  {
    y * WIDTH + x
  }

  /** The word stored for pixel (x, y). */
  function At(fb: Frame, x: int, y: int): bv16
    requires ValidFrame(fb) && InBounds(x, y)
  {
    fb[Idx(x, y)]
  }

  /** The colour shown at pixel (x, y): the stored word swapped back. */
  function ColourAt(fb: Frame, x: int, y: int): Colour
    requires ValidFrame(fb) && InBounds(x, y)
  {
    Bswap16(At(fb, x, y))
  }

  /** Store the swapped colour into the word of an on-screen pixel; no other
      word changes. */
  function Store(fb: Frame, x: int, y: int, color: Colour): (r: Frame)
    requires ValidFrame(fb) && InBounds(x, y)
    ensures ValidFrame(r)
    ensures At(r, x, y) == Bswap16(color) && ColourAt(r, x, y) == color
    ensures forall px, py {:trigger At(r, px, py)} :: InBounds(px, py) && (px != x || py != y) ==>
      At(r, px, py) == At(fb, px, py)
  {
    Bswap16Involution(color);
    fb[Idx(x, y) := Bswap16(color)]
  }

  /** `put_pixel`: an off-screen coordinate is ignored; an on-screen one has
      its word replaced by the swapped colour and no other word changes. */
  function PutPixel(fb: Frame, x: int, y: int, color: Colour): (r: Frame)
    requires ValidFrame(fb)
    ensures ValidFrame(r)
    ensures !InBounds(x, y) ==> r == fb
    ensures InBounds(x, y) ==> At(r, x, y) == Bswap16(color) && ColourAt(r, x, y) == color
    ensures forall px, py {:trigger At(r, px, py)} :: InBounds(px, py) && (px != x || py != y) ==>
      At(r, px, py) == At(fb, px, py)
  {
    if x < 0 || x >= WIDTH || y < 0 || y >= HEIGHT then fb
    else Store(fb, x, y, color)
  }

  /** The byte of a stored word that comes first in memory on a
      little-endian host: its low byte. */
  function FirstByte(v: bv16): u8 {
    ((v & 0xFF) as bv8) as int
  }

  /** The byte of a stored word that comes second in memory: its high byte. */
  function SecondByte(v: bv16): u8 {
    ((v >> 8) as bv8) as int
  }

  /** The 108800 bytes of the frame in memory on a little-endian host: the
      `const uint8_t *frame` that the encoder reads. */
  function WireBytes(fb: Frame): (bytes: seq<u8>)
    requires ValidFrame(fb)
    ensures |bytes| == FRAME_BYTES
    ensures forall i :: 0 <= i < PIXELS ==> bytes[2 * i] == FirstByte(fb[i]) && bytes[2 * i + 1] == SecondByte(fb[i])
  {
    seq(FRAME_BYTES, j requires 0 <= j < FRAME_BYTES =>
      if j % 2 == 0 then FirstByte(fb[j / 2]) else SecondByte(fb[j / 2]))
  }

  /** Because `put_pixel` stores the swapped colour, an on-screen pixel's
      colour reaches the wire high byte first. */
  lemma PixelOnWireIsBigEndian(fb: Frame, x: int, y: int, color: Colour)
    requires ValidFrame(fb) && InBounds(x, y)
    ensures WireBytes(PutPixel(fb, x, y, color))[2 * Idx(x, y)] == SecondByte(color)
    ensures WireBytes(PutPixel(fb, x, y, color))[2 * Idx(x, y) + 1] == FirstByte(color)
  {
  }
}
