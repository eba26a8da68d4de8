# ACEMAGIC S1 panel encoder, renderer and cash-machine breakdown, in Dafny

This project models three small integer-only pieces of the repository.

- **The LCD packet encoder of `s1panel_freebsd.c`.** The ACEMAGIC S1 front
  panel takes fixed 4104-byte HID packets: an 8-byte header (signature
  `0x55`, command class, command, sequence or parameters) followed by a
  4096-byte data area. The model covers the orientation packet, the
  set-time/heartbeat packet, and the full-frame redraw. The redraw splits the
  108800-byte RGB565 frame into 27 packets: 26 carry 4096 bytes and the last
  carries 2304.
- **The framebuffer renderer of the same file.** It draws on a 320x170 RGB565
  frame and covers colour packing, the byte swap applied to every stored
  pixel, the static 5x7 font and its lookup, the bounds-checked pixel store,
  characters, strings, clipped rectangles and progress bars.
- **The greedy banknote breakdown of `CxEletronico.c`.** It splits an amount
  into notes of 100, 50, 20, 10 and 5.

Modules:

- `CArith`: C's truncating `/` and `%`, clamping, and the `uint8_t`/`uint16_t` conversions.
- `Colour`: `bswap16`, `rgb565`, `rgb_u8`.
- `Font`: the font table and `find_glyph`.
- `Framebuffer`: the frame as 54400 16-bit words, `put_pixel`, and the frame's bytes in memory.
- `Draw`: `draw_char`, `draw_text`, `fill_rect`, `draw_bar`.
- `Packets`: the packet layout and the two control packets, with a decoder that inverts them.
- `Redraw`: the chunk plan and `lcd_redraw`.
- `CashMachine`: the loop of `main` in `CxEletronico.c`.

Modelling choices:

- **Pixels.** The frame is the sequence of the 54400 16-bit words that
  `put_pixel` stores, each holding `bswap16(color)`. `Framebuffer.WireBytes`
  gives the 108800 bytes the encoder reads. It assumes a little-endian host,
  so the low byte of each stored word comes first.
- **Drawing.** The drawing routines are methods whose loops follow the C
  loops. Their contracts describe the resulting frame pixel by pixel.
- **Transport.** `write_all` becomes a predicate `sink` that says whether a
  packet was written.
- **Clock.** `time`/`localtime_r` are replaced by hour, minute and second
  parameters.
- **Integers.** C `int` arithmetic is unbounded here. Conversions to
  `uint8_t`/`uint16_t` are written out modulo 2^8 and 2^16.

Facts about the code that the model keeps as they are:

- Text is drawn at one fixed size, and the frame is never rotated.
- The bar's fill width uses C's truncating division.
- The redraw always splits the frame into the same 27 packets, START (`F0`) on the first and END (`F2`) on the last. It stops after the first packet the transport rejects.
- The denomination loop stops before the 2 note, although the array lists it.

## Model

| member | source | states |
|---|---|---|
| CArith.TruncDiv | s1panel_freebsd.c:316 | C division by a positive divisor truncates toward zero: for a non-negative dividend the quotient times the divisor lies in 0..a and is within one divisor of a; for a negative dividend it lies in a..0, again within one divisor |
| CArith.TruncMod | CxEletronico.c:24 | C remainder: dividend = quotient * divisor + remainder; the remainder lies in 0..b-1 for a non-negative dividend and in -(b-1)..0 for a negative one |
| CArith.Clamp | s1panel_freebsd.c:316 | the clamped value lies in lo..hi: it is v when v is in range, lo below it and hi above it |
| CArith.U8 | s1panel_freebsd.c:104-106 | the `uint8_t` cast reduces a value modulo 256: the result is congruent to v, lies in 0..255, and equals v when v is already in range |
| CArith.U16 | s1panel_freebsd.c:128-129 | the `uint16_t` cast reduces a value modulo 65536: the result is congruent to v, lies in 0..65535, and equals v when v is already in range |
| CArith.LittleEndian | s1panel_freebsd.c:130-133 | the low byte followed by the high byte of a 16-bit header field recombine to the field |
| Colour.Bswap16 | s1panel_freebsd.c:49 | the high byte of the result is the low byte of the input and vice versa |
| Colour.Bswap16Involution | s1panel_freebsd.c:49 | swapping the bytes twice restores the word, so a stored pixel's colour can be recovered |
| Colour.Rgb565 | s1panel_freebsd.c:52-54 | each channel, masked to 5/6/5 bits, is recovered from its field of the packed colour |
| Colour.RgbU8 | s1panel_freebsd.c:57-59 | the packed fields are the top 5, 6 and 5 bits of the 8-bit channels |
| Colour.RgbU8Extremes | s1panel_freebsd.c:57-59 | full-intensity channels pack to 0xFFFF (white) and zero channels to 0 (black) |
| Font.FindFrom | s1panel_freebsd.c:263-266 | the linear search returns the first index at or after i whose character matches, or the table length when none does |
| Font.Lookup | s1panel_freebsd.c:263-267 | the glyph returned is a table entry: the first entry for c when there is one, else entry 0 |
| Font.FindGlyph | s1panel_freebsd.c:232-267 | the glyph is always an entry of the font table with five columns: the entry for a supported character, else the space glyph (entry 0) |
| Font.UnsupportedIsBlank | s1panel_freebsd.c:263-267 | an unsupported character has no lit pixel |
| Framebuffer.Store | s1panel_freebsd.c:273 | the word of an on-screen pixel receives the swapped colour, the colour reads back unchanged, and no other pixel changes |
| Framebuffer.PutPixel | s1panel_freebsd.c:269-274 | off-screen coordinates leave the frame unchanged; on-screen, only the word at y*320+x changes, it holds `bswap16(color)`, and swapping it back gives the colour |
| Framebuffer.WireBytes | s1panel_freebsd.c:269-274 | the frame's bytes in memory: for each word, its low byte and then its high byte, 108800 bytes in all |
| Framebuffer.PixelOnWireIsBigEndian | s1panel_freebsd.c:271-273 | after `put_pixel`, the pixel's two bytes in the frame are the colour's high byte followed by its low byte |
| Draw.FrameExtensionality | s1panel_freebsd.c:35-38 | two frames that agree on every on-screen pixel are equal |
| Draw.DrawColumn | s1panel_freebsd.c:280-284 | rows y..y+6 of column x show fg where the column byte's bit is set and bg elsewhere; nothing else changes |
| Draw.DrawGlyph | s1panel_freebsd.c:279-285 | columns x..x+4, rows y..y+6 show the glyph: fg where lit, bg elsewhere; nothing else changes |
| Draw.DrawSpacing | s1panel_freebsd.c:287 | column x, rows y..y+6, takes bg and nothing else changes |
| Draw.DrawChar | s1panel_freebsd.c:277-288 | inside the 6x7 cell each pixel shows the glyph's colour: fg where lit, bg elsewhere, and bg in the spacing column; every pixel outside the cell is unchanged |
| Draw.DrawCharPixel | s1panel_freebsd.c:279-284 | pixel (x+col, y+row) of a drawn character shows fg exactly when bit `row` of glyph column `col` is set, else bg |
| Draw.DrawText | s1panel_freebsd.c:291-297 | character i is drawn in the cell at x+6i and every pixel outside the string's cells is unchanged; an empty string leaves the frame unchanged |
| Draw.FillSpan | s1panel_freebsd.c:305-309 | the clipped columns of row yy take the colour and nothing else changes |
| Draw.FillRect | s1panel_freebsd.c:300-311 | no change for w<=0 or h<=0; otherwise exactly the on-screen part of the rectangle takes the colour; filling a rectangle that already shows the colour changes nothing, so filling twice equals filling once |
| Draw.RefillChangesNothing | s1panel_freebsd.c:300-311 | storing a colour over pixels that already show it yields the same frame |
| Draw.FillWidth | s1panel_freebsd.c:316 | the fill is clamp(pct,0,100)*w/100 truncated toward zero: for w>=0 it is the largest f with 100f <= clamp*w, for w<0 the smallest f with clamp*w <= 100f; so it lies within 0..w for w>=0, any pct above 100 acts as 100 and fills w, and pct<=0 fills nothing |
| Draw.DrawBar | s1panel_freebsd.c:314-321 | border rows y and y+h-1 and columns x and x+w-1 (on-screen parts only) show the frame colour; the rest of the rectangle shows fg left of x+fill and bg from there on; every other pixel is unchanged |
| Packets.Zeros | s1panel_freebsd.c:84 | the zeroed packet buffer has the requested length and every byte is 0 |
| Packets.OrientationPacket | s1panel_freebsd.c:82-91 | the packet is 4104 bytes: `55 A1 F1 <orientation>`, then all zero |
| Packets.TimePacket | s1panel_freebsd.c:94-109 | the packet is 4104 bytes: `55 A1`, then F3 to set the time or F2 for a heartbeat, then hour, minute and second as `uint8_t`, then all zero |
| Packets.TimeFieldsExact | s1panel_freebsd.c:104-106 | hour, minute and second from `localtime_r`'s ranges reach the packet unchanged |
| Packets.Decode | s1panel_freebsd.c:82-109 | a packet that decodes is 4104 bytes and starts `55 A1` |
| Packets.DecodeEncode | s1panel_freebsd.c:82-109 | every control packet decodes to the command it was built from, so distinct commands give distinct packets |
| Packets.EncodeDecode | s1panel_freebsd.c:82-109 | a decodable packet is exactly the encoding of its command, so each packet carries one command |
| Redraw.PlanTilesFrame | s1panel_freebsd.c:113-144 | each chunk is non-empty, at most 4096 bytes, inside the frame, and starts where the previous one ended; chunks 1..26 carry 4096 bytes and chunk 27 carries exactly 2304, ending at byte 108800 |
| Redraw.LengthsFromRest | s1panel_freebsd.c:132-144 | the chunks from k on account for exactly the frame bytes after chunk k's offset |
| Redraw.LengthsSumToFrame | s1panel_freebsd.c:132-144 | the 27 payload lengths sum to 108800 |
| Redraw.Chunk | s1panel_freebsd.c:135-136 | chunk k has the planned length |
| Redraw.ChunksFromRest | s1panel_freebsd.c:132-144 | the chunks from k on, concatenated, are the frame from chunk k's offset to its end |
| Redraw.ChunksReassembleFrame | s1panel_freebsd.c:113-144 | the 27 payloads concatenated in sequence order are the frame |
| Redraw.Command | s1panel_freebsd.c:123 | the command byte is START exactly for the first packet, END exactly for the last and CONTINUE exactly for the ones between |
| Redraw.PlannedPacket | s1panel_freebsd.c:117-137 | packet k is 4104 bytes: `55 A3`, then F0 for k=1, F2 for k=27 and F1 otherwise, then k; bytes 4-5 are (k-1)*0x10 little-endian; bytes 6-7 are `10 00`, or `09 00` for the last packet; then chunk k, then zeros |
| Redraw.BuildPacket | s1panel_freebsd.c:118-136 | the loop body with the counters it holds at sequence k builds exactly packet k of the plan |
| Redraw.Redraw | s1panel_freebsd.c:112-145 | packets go out in order, each exactly as planned; the first rejected packet is the last one handed over; the result is true exactly when all 27 packets were written |
| CashMachine.PaidUpdate | CxEletronico.c:22 | recording q notes of denomination i, where none were counted before, raises the amount paid by q times that denomination |
| CashMachine.LeftBounds | CxEletronico.c:19-25 | after the first n denominations the amount left is non-negative and below the last of them |
| CashMachine.GreedyBounds | CxEletronico.c:19-25 | the greedy counts of 50, 20, 10 and 5 are at most 1, 2, 1 and 1, and what is left after the five denominations is in 0..4 |
| CashMachine.TakeNotes | CxEletronico.c:20-25 | one pass of the loop keeps notes paid plus amount left constant, touches only count i, and for an amount >= 0 takes amount/note notes and leaves amount%note; a negative amount is left alone |
| CashMachine.Breakdown | CxEletronico.c:17-26 | the value of the notes plus the remainder equals the amount; counts are non-negative and the 2 note is never counted; for an amount >= 0 each count is the greedy one (largest note first: count k is what is left after denominations 0..k-1, divided by note k), so the count of 100s is amount/100, at most one 50, two 20s, one 10 and one 5 are used, and the remainder is in 0..4; a negative amount yields no notes and is returned whole |

## Left out

- Device I/O: `write_all` and its retries on short writes
  (s1panel_freebsd.c:63-79), and the `open`/`close` of the device in `main`,
  are not modelled. The transport is the `sink`
  predicate.
- The main loop (s1panel_freebsd.c:336-435): signal handling, heartbeat
  timing on the monotonic clock, and the screen layout it draws.
- `time`/`localtime_r` (s1panel_freebsd.c:95-97): the clock reading is a
  parameter of `Packets.TimePacket`.
- Metrics collection (s1panel_freebsd.c:149-221): sysctl/statfs are foreign
  calls, and the CPU and temperature figures are floating point.
- `human_bytes`, `snprintf` and the percentage rounding in `main`: these are
  libc formatting and floating point.
- `CxEletronico.c` console I/O (`setlocale`, `scanf`, `printf`): the amount
  is a parameter and the counts and remainder are results.
- `CxEletr.js` repeats the same greedy loop over floating-point numbers.
  `index.php` and `registros.php` are page assembly and database queries.
- C `int` overflow: coordinates, sizes and amounts are unbounded integers, so
  products such as `y*WIDTH + x` or `pct * w` never wrap.
- Byte order of the host: `Framebuffer.WireBytes` fixes a little-endian host.
  On a big-endian host the stored words would reach the wire in the opposite
  byte order.
- Redraw.Redraw: the frame is any 108800 bytes. Its link to the renderer's
  frame goes through `Framebuffer.WireBytes`, not a combined lemma.
- Draw.DrawText: the string is the contents of the C string before its
  terminating NUL. It therefore contains no NUL, and the scan for the
  terminator is not modelled. Each character of `s` stands for one byte
  (one C `char`) of that string; multi-byte encodings are not modelled.
