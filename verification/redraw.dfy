/**
 The full-frame redraw of `lcd_redraw` (s1panel_freebsd.c:111-145): the
 108800-byte frame goes out as 27 redraw packets, 26 carrying 4096 bytes
 and the last carrying 2304.

 The transfer plan below describes packet k (1-based) in closed form; the
 method `Redraw` follows the source's loop with its running `remaining` and
 `sent_off` counters and is proved to emit exactly the planned packets.
 The transport is a predicate `sink` saying whether a packet was written.
 */
module Redraw {
  import opened CArith
  import opened Framebuffer
  import opened Packets

  /** `REDRAW_BLOCKS`. */
  const REDRAW_BLOCKS: int := 27
  /** The hard-coded length of the last chunk. */
  const LAST_CHUNK: int := 2304
  const CLASS_REDRAW: u8 := 0xA3
  const CMD_START: u8 := 0xF0
  const CMD_CONTINUE: u8 := 0xF1
  const CMD_END: u8 := 0xF2

  // ------------------------------------------------------------ the plan

  predicate IsSeq(k: int) {
    1 <= k <= REDRAW_BLOCKS
  }

  /** Where chunk k starts in the frame. */
  function ChunkOffset(k: int): int
    requires IsSeq(k)
  {
    (k - 1) * CHUNK_DATA
  }

  /** How many frame bytes chunk k carries: a full data area, except the
      last chunk, which carries what is left of the frame. */
  function ChunkLength(k: int): int
    requires IsSeq(k)
  {
    if k < REDRAW_BLOCKS then CHUNK_DATA else FRAME_BYTES - ChunkOffset(k)
  }

  /** The chunks tile the frame: each is non-empty, fits the data area and
      the frame, starts where the previous one ended, and the last one is
      exactly the hard-coded 2304 bytes and ends at the frame's end. */
  lemma PlanTilesFrame(k: int)
    requires IsSeq(k)
    ensures 0 < ChunkLength(k) <= CHUNK_DATA
    ensures 0 <= ChunkOffset(k) && ChunkOffset(k) + ChunkLength(k) <= FRAME_BYTES
    ensures k > 1 ==> ChunkOffset(k) == ChunkOffset(k - 1) + ChunkLength(k - 1)
    ensures k == REDRAW_BLOCKS ==> ChunkLength(k) == LAST_CHUNK && ChunkOffset(k) + ChunkLength(k) == FRAME_BYTES
    ensures ChunkLength(k) == (if k < REDRAW_BLOCKS then CHUNK_DATA else LAST_CHUNK)
  {
  }

  /** Total of the chunk lengths from chunk k to the end. */
  function LengthsFrom(k: int): int
    requires 1 <= k <= REDRAW_BLOCKS + 1
    decreases REDRAW_BLOCKS + 1 - k
  {
    if k == REDRAW_BLOCKS + 1 then 0 else ChunkLength(k) + LengthsFrom(k + 1)
  }

  /** The chunks from k on account for exactly the rest of the frame. */
  lemma {:induction false} LengthsFromRest(k: int)
    requires IsSeq(k)
    ensures LengthsFrom(k) == FRAME_BYTES - ChunkOffset(k)
    decreases REDRAW_BLOCKS + 1 - k
  {
    if k < REDRAW_BLOCKS {
      LengthsFromRest(k + 1);
    }
  }

  /** The payload lengths add up to `FRAME_BYTES`. */
  lemma LengthsSumToFrame()
    ensures LengthsFrom(1) == FRAME_BYTES
  {
    LengthsFromRest(1);
  }

  /** The frame bytes chunk k carries. */
  function Chunk(frame: seq<u8>, k: int): (c: seq<u8>)
    requires |frame| == FRAME_BYTES && IsSeq(k)
    ensures |c| == ChunkLength(k)
  {
    PlanTilesFrame(k);
    frame[ChunkOffset(k) .. ChunkOffset(k) + ChunkLength(k)]
  }

  /** The chunks from k on, concatenated. */
  function ChunksFrom(frame: seq<u8>, k: int): seq<u8>
    requires |frame| == FRAME_BYTES && 1 <= k <= REDRAW_BLOCKS + 1
    decreases REDRAW_BLOCKS + 1 - k
  {
    if k == REDRAW_BLOCKS + 1 then [] else Chunk(frame, k) + ChunksFrom(frame, k + 1)
  }

  /** The chunks from k on are the frame from chunk k's offset on. */
  lemma {:induction false} ChunksFromRest(frame: seq<u8>, k: int)
    requires |frame| == FRAME_BYTES && IsSeq(k)
    ensures ChunksFrom(frame, k) == frame[ChunkOffset(k)..]
    decreases REDRAW_BLOCKS + 1 - k
  {
    PlanTilesFrame(k);
    if k < REDRAW_BLOCKS {
      ChunksFromRest(frame, k + 1);
      PlanTilesFrame(k + 1);
      assert frame[ChunkOffset(k)..] == Chunk(frame, k) + frame[ChunkOffset(k + 1)..];
    } else {
      assert frame[ChunkOffset(k)..] == Chunk(frame, k);
    }
  }

  /** Concatenating the 27 payloads in sequence order gives back the frame. */
  lemma ChunksReassembleFrame(frame: seq<u8>)
    requires |frame| == FRAME_BYTES
    ensures ChunksFrom(frame, 1) == frame
  {
    ChunksFromRest(frame, 1);
  }

  /** The command code of packet k: start, continue, end. */
  function Command(k: int): (c: u8)
    requires IsSeq(k)
    ensures c == CMD_START <==> k == 1
    ensures c == CMD_END <==> k == REDRAW_BLOCKS
    ensures c == CMD_CONTINUE <==> 1 < k < REDRAW_BLOCKS
  {
    if k == 1 then CMD_START else if k == REDRAW_BLOCKS then CMD_END else CMD_CONTINUE
  }

  /** Packet k as the device expects it: `55 A3 <cmd> <k>`, the offset
      (k-1)*0x10 little-endian, the length code 0x10 (0x09 for the short last
      chunk) little-endian, then chunk k zero-padded to 4096 bytes. */
  function PlannedPacket(frame: seq<u8>, k: int): (p: Packet)
    requires |frame| == FRAME_BYTES && IsSeq(k)
    ensures |p| == PKT_SIZE
    ensures p[0] == SIG_BYTE && p[1] == CLASS_REDRAW && p[2] == Command(k) && p[3] == k
    ensures (p[4] as int) + 0x100 * (p[5] as int) == (k - 1) * 0x10
    ensures p[6] == (if k == REDRAW_BLOCKS then 0x09 else 0x10) && p[7] == 0
    ensures p[8 .. 8 + ChunkLength(k)] == Chunk(frame, k)
    ensures forall i :: 8 + ChunkLength(k) <= i < PKT_SIZE ==> p[i] == 0
  {
    var off := (k - 1) * 0x10;
    var len := if k == REDRAW_BLOCKS then 0x09 else 0x10;
    LittleEndian(off);
    PlanTilesFrame(k);
    var header := [SIG_BYTE, CLASS_REDRAW, Command(k), k as u8, LowByte(off), HighByte(off), LowByte(len), HighByte(len)];
    var p := header + Chunk(frame, k) + Zeros(CHUNK_DATA - ChunkLength(k));
    assert p[8 .. 8 + ChunkLength(k)] == Chunk(frame, k);
    p
  }

  // ------------------------------------------------------------ the loop

  /** The body of the source's loop up to the write (lines 118-136): a
      zeroed packet, the header set from the counters `seq`, `remaining`
      and `sent_off`, then `this_data` frame bytes copied from `sent_off`
      into the data area. With the counters the loop has when it reaches
      packet k, this is packet k of the plan. */
  method BuildPacket(frame: seq<u8>, seqNo: int, remaining: int, sentOff: int) returns (pkt: Packet)
    requires |frame| == FRAME_BYTES && IsSeq(seqNo)
    requires sentOff == ChunkOffset(seqNo) && remaining == FRAME_BYTES - sentOff
    ensures pkt == PlannedPacket(frame, seqNo)
  {
    PlanTilesFrame(seqNo);
    pkt := Zeros(PKT_SIZE);
    pkt := pkt[0 := SIG_BYTE][1 := CLASS_REDRAW];
    pkt := pkt[2 := if seqNo == 1 then CMD_START else if seqNo == REDRAW_BLOCKS then CMD_END else CMD_CONTINUE];
    pkt := pkt[3 := U8(seqNo)];
    var off16 := U16((sentOff / CHUNK_DATA) * 0x10);
    var len16 := U16(if remaining >= CHUNK_DATA then 0x10 else 0x09);
    pkt := pkt[4 := LowByte(off16)][5 := HighByte(off16)][6 := LowByte(len16)][7 := HighByte(len16)];
    var thisData := if remaining >= CHUNK_DATA then CHUNK_DATA else LAST_CHUNK;
    ghost var header := pkt;
    var data := frame[sentOff .. sentOff + thisData];
    pkt := pkt[..8] + data + pkt[8 + thisData..];

    var planned := PlannedPacket(frame, seqNo);
    assert sentOff / CHUNK_DATA == seqNo - 1;
    assert thisData == ChunkLength(seqNo) && data == Chunk(frame, seqNo);
    forall i | 0 <= i < PKT_SIZE
      ensures pkt[i] == planned[i]
    {
      if i < 8 {
        assert pkt[i] == header[i];
      } else if i < 8 + thisData {
        assert pkt[i] == data[i - 8];
        assert planned[i] == planned[8 .. 8 + ChunkLength(seqNo)][i - 8];
      } else {
        assert pkt[i] == header[i] == 0;
      }
    }
  }

  /** `lcd_redraw`: hands packets 1, 2, ... to `sink` in order and stops at
      the first one the sink rejects. `sent` is every packet handed over,
      each exactly as planned; `ok` holds exactly when all 27 were written. */
  method Redraw(frame: seq<u8>, sink: Packet -> bool) returns (sent: seq<Packet>, ok: bool)
    requires |frame| == FRAME_BYTES
    ensures 1 <= |sent| <= REDRAW_BLOCKS
    ensures forall j :: 0 <= j < |sent| ==> sent[j] == PlannedPacket(frame, j + 1)
    ensures forall j :: 0 <= j < |sent| - 1 ==> sink(sent[j])
    ensures ok <==> |sent| == REDRAW_BLOCKS && sink(sent[REDRAW_BLOCKS - 1])
    ensures !ok ==> !sink(sent[|sent| - 1])
  {
    var remaining := FRAME_BYTES;
    var sentOff := 0;
    sent := [];
    var seqNo := 1;
    while seqNo <= REDRAW_BLOCKS
      invariant 1 <= seqNo <= REDRAW_BLOCKS + 1 && |sent| == seqNo - 1
      invariant seqNo <= REDRAW_BLOCKS ==> sentOff == ChunkOffset(seqNo)
      invariant sentOff + remaining == FRAME_BYTES && 0 <= remaining
      invariant seqNo == REDRAW_BLOCKS + 1 ==> remaining == 0
      invariant forall j :: 0 <= j < |sent| ==> sent[j] == PlannedPacket(frame, j + 1)
      invariant forall j :: 0 <= j < |sent| ==> sink(sent[j])
    {
      PlanTilesFrame(seqNo);
      var pkt := BuildPacket(frame, seqNo, remaining, sentOff);
      sent := sent + [pkt];
      if !sink(pkt) {
        ok := false;
        break;
      }
      var thisData := if remaining >= CHUNK_DATA then CHUNK_DATA else LAST_CHUNK;
      sentOff := sentOff + thisData;
      remaining := if remaining >= thisData then remaining - thisData else 0;
      seqNo := seqNo + 1;
    }
    if seqNo == REDRAW_BLOCKS + 1 {
      ok := remaining == 0;
    }
  }
}
