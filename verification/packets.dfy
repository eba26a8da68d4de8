/**
 The fixed-size packet of the panel's wire protocol and the two control
 packets (s1panel_freebsd.c:39-46, 81-109). Every packet is 4104 bytes:
 an 8-byte header and a 4096-byte data area, all zero unless set.
 */
module Packets {
  import opened CArith

  const CHUNK_DATA: int := 4096
  /** `PKT_SIZE`: header plus data area. */
  const PKT_SIZE: int := 8 + CHUNK_DATA
  const SIG_BYTE: u8 := 0x55
  /** Command class of the control packets. */
  const CLASS_CONTROL: u8 := 0xA1
  const CMD_ORIENTATION: u8 := 0xF1
  const CMD_HEARTBEAT: u8 := 0xF2
  const CMD_SET_TIME: u8 := 0xF3

  type Packet = seq<u8>

  /** The `memset(pkt, 0, sizeof pkt)` every packet starts from. */
  function Zeros(n: nat): (z: seq<u8>)
    ensures |z| == n
    ensures forall i :: 0 <= i < n ==> z[i] == 0
  {
    seq(n, _ => 0)
  }

  /** The packet `lcd_set_orientation` writes: `55 A1 F1 <orientation>`,
      then zeros. The orientation code is passed through unchanged. */
  function OrientationPacket(orientation: u8): (p: Packet)
    ensures |p| == PKT_SIZE
    ensures p[0] == SIG_BYTE && p[1] == CLASS_CONTROL && p[2] == CMD_ORIENTATION && p[3] == orientation
    ensures forall i :: 4 <= i < PKT_SIZE ==> p[i] == 0
  {
    Zeros(PKT_SIZE)[0 := SIG_BYTE][1 := CLASS_CONTROL][2 := CMD_ORIENTATION][3 := orientation]
  }

  /** The packet `lcd_set_time_or_heartbeat` writes: `55 A1 F3` to set the
      clock or `55 A1 F2` for a heartbeat, then hour, minute and second each
      cast to `uint8_t`, then zeros. The clock reading is a parameter. */
  function TimePacket(setTime: bool, hour: int, minute: int, second: int): (p: Packet)
    ensures |p| == PKT_SIZE
    ensures p[0] == SIG_BYTE && p[1] == CLASS_CONTROL
    ensures p[2] == (if setTime then CMD_SET_TIME else CMD_HEARTBEAT)
    ensures p[3] == U8(hour) && p[4] == U8(minute) && p[5] == U8(second)
    ensures forall i :: 6 <= i < PKT_SIZE ==> p[i] == 0
  {
    Zeros(PKT_SIZE)[0 := SIG_BYTE][1 := CLASS_CONTROL][2 := if setTime then CMD_SET_TIME else CMD_HEARTBEAT]
                   [3 := U8(hour)][4 := U8(minute)][5 := U8(second)]
  }

  /** A clock reading in the ranges `localtime_r` produces is carried in the
      packet unchanged. */
  lemma TimeFieldsExact(setTime: bool, hour: int, minute: int, second: int)
    requires 0 <= hour < 24 && 0 <= minute < 60 && 0 <= second < 61
    ensures TimePacket(setTime, hour, minute, second)[3] == hour
    ensures TimePacket(setTime, hour, minute, second)[4] == minute
    ensures TimePacket(setTime, hour, minute, second)[5] == second
  {
  }

  /** The command a control packet encodes. */
  datatype Control =
    | SetOrientation(mode: u8)
    | SetTime(hour: u8, minute: u8, second: u8)
    | Heartbeat(hour: u8, minute: u8, second: u8)

  /** The packet for a control command. */
  function Encode(c: Control): (p: Packet)
    ensures |p| == PKT_SIZE
  {
    match c
    case SetOrientation(mode) => OrientationPacket(mode)
    case SetTime(h, m, s) => TimePacket(true, h, m, s)
    case Heartbeat(h, m, s) => TimePacket(false, h, m, s)
  }

  /** Whether bytes `from` .. `PKT_SIZE-1` of `p` are all zero. */
  predicate ZeroFrom(p: Packet, from: nat)
    requires |p| == PKT_SIZE
  {
    forall i :: from <= i < PKT_SIZE ==> p[i] == 0
  }

  /** Reads a control packet back; anything that is not exactly a packet the
      encoder can produce is rejected. */
  function Decode(p: Packet): (c: Option<Control>)
    ensures c.Some? ==> |p| == PKT_SIZE && p[0] == SIG_BYTE && p[1] == CLASS_CONTROL
  {
    if |p| != PKT_SIZE || p[0] != SIG_BYTE || p[1] != CLASS_CONTROL then None
    else if p[2] == CMD_ORIENTATION && ZeroFrom(p, 4) then Some(SetOrientation(p[3]))
    else if p[2] == CMD_SET_TIME && ZeroFrom(p, 6) then Some(SetTime(p[3], p[4], p[5]))
    else if p[2] == CMD_HEARTBEAT && ZeroFrom(p, 6) then Some(Heartbeat(p[3], p[4], p[5]))
    else None
  }

  datatype Option<T> = None | Some(value: T)

  /** Every control packet decodes to the command it was built from. */
  lemma DecodeEncode(c: Control)
    ensures Decode(Encode(c)) == Some(c)
  {
    var p := Encode(c);
    match c
    case SetOrientation(mode) =>
    case SetTime(h, m, s) =>
      assert p[3] == h && p[4] == m && p[5] == s;
    case Heartbeat(h, m, s) =>
      assert p[3] == h && p[4] == m && p[5] == s;
  }

  /** A packet that decodes is exactly the encoding of what it decodes to:
      no two control packets carry the same command. */
  lemma EncodeDecode(p: Packet)
    requires Decode(p).Some?
    ensures Encode(Decode(p).value) == p
  {
    var q := Encode(Decode(p).value);
    assert forall i :: 0 <= i < PKT_SIZE ==> q[i] == p[i];
  }
}
