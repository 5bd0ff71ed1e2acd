/** Wire-level constants and layout shared by both ends of the serial link
    (LightFanTemp/serial_comms.h). */
module Protocol {

  /** An unsigned 8-bit value: `uint8_t`, and plain `char` on the RP2040 target, where it is unsigned. */
  type Byte = x: int | 0 <= x < 256

  /** Frame markers. */
  const START_CHAR: Byte := 0xA5
  const ESCAPE_CHAR: Byte := 0xDE
  const END_CHAR: Byte := 0x5A

  /** Size of one receive slot and of the transmit buffer. */
  const CMD_LEN: nat := 255
  /** Size of the fixed part of `struct serial_cmd`. */
  const HEADER_LEN: nat := 4
  /** Room left for `cmd[]` in one slot. */
  const MAX_PAYLOAD: nat := CMD_LEN - HEADER_LEN

  /** `enum cmd_type`. */
  const MODEM_RESET: Byte := 0x00
  const WIFI_CONNECTED: Byte := 0x10
  const WIFI_DISCONNECTED: Byte := 0x11
  const MQTT_CONNECTED: Byte := 0x12
  const MQTT_DISCONNECTED: Byte := 0x13
  const SET_LED_COLOR: Byte := 0x20
  const SET_LED_COLOR_BULK: Byte := 0x21
  const GET_LED_COLOR: Byte := 0x22
  const GET_LED_COLOR_BULK: Byte := 0x23
  const SET_LED_TIME: Byte := 0x24
  const SET_LED_TIME_BULK: Byte := 0x25
  const SET_FAN_POWER_STATE: Byte := 0x30
  const SET_FAN_PWM_PERC: Byte := 0x31
  const GET_FAN_PWM_PERC: Byte := 0x32
  const GET_TEMP: Byte := 0x40
  const SEND_TEMP: Byte := 0x41
  const SEND_LOG: Byte := 0x50
  const SWITCH_PROGRAMS: Byte := 0x60

  /** `enum parser_state`: the five states of the receive state machine. */
  datatype ParserState = MsgStart | MsgParityRcv | MsgRcv | MsgEscape | MsgEnd

  /** A byte the encoder must escape. */
  predicate IsMarker(b: Byte) {
    b == START_CHAR || b == END_CHAR || b == ESCAPE_CHAR
  }

  lemma MarkersDistinct()
    ensures START_CHAR != ESCAPE_CHAR && START_CHAR != END_CHAR && ESCAPE_CHAR != END_CHAR
    ensures forall b: Byte :: IsMarker(b) <==> b in {START_CHAR, END_CHAR, ESCAPE_CHAR}
  {
  }

  /** Running sum of a byte string, accumulated front to back as the C loops do. */
  function Sum(s: seq<Byte>): nat
  {
    if s == [] then 0 else Sum(s[..|s| - 1]) + s[|s| - 1]
  }

  /** The link's checksum: the truncating (uint8_t) sum of the bytes. */
  function Checksum(s: seq<Byte>): Byte
  {
    Sum(s) % 256
  }

  lemma {:induction false} SumAppend(a: seq<Byte>, b: seq<Byte>)
    ensures Sum(a + b) == Sum(a) + Sum(b)
    decreases |b|
  {
    if b == [] {
      assert a + b == a;
    } else {
      var b' := b[..|b| - 1];
      assert (a + b)[..|a + b| - 1] == a + b';
      SumAppend(a, b');
    }
  }

  /** Adding one byte to a checksum as the receiver does (`parity += ch` on a uint8_t). */
  lemma ChecksumStep(s: seq<Byte>, b: Byte)
    ensures Checksum(s + [b]) == (Checksum(s) + b) % 256
  {
    assert (s + [b])[..|s + [b]| - 1] == s;
  }

  /** Replacing one byte moves the running sum by the difference of the two bytes. */
  lemma SumUpdate(m: seq<Byte>, i: nat, b: Byte)
    requires i < |m|
    ensures Sum(m[i := b]) == Sum(m) - m[i] + b
  {
    var pre, post := m[..i], m[i + 1..];
    assert m == (pre + [m[i]]) + post;
    assert m[i := b] == (pre + [b]) + post;
    SumAppend(pre + [m[i]], post);
    SumAppend(pre + [b], post);
    ChecksumStep(pre, m[i]);
    ChecksumStep(pre, b);
    assert (pre + [m[i]])[..|pre|] == pre && (pre + [b])[..|pre|] == pre;
  }

  /** The checksum detects any single changed byte: replacing a byte by a different one always
      changes the uint8_t sum, since the two bytes differ by less than 256. This covers every
      single-bit flip. */
  lemma ChecksumDetectsChange(m: seq<Byte>, i: nat, b: Byte)
    requires i < |m| && b != m[i]
    ensures Checksum(m[i := b]) != Checksum(m)
  {
    SumUpdate(m, i, b);
  }

  /** `struct serial_cmd` without its trailing `cmd[]`. */
  datatype Header = Header(parity: Byte, seqNo: Byte, cmdType: Byte, cmdLen: Byte)

  /** The in-memory layout of a command: parity, seq, cmd_type, cmd_len, then the payload. */
  function Layout(h: Header, payload: seq<Byte>): (f: seq<Byte>)
    ensures |f| == HEADER_LEN + |payload|
    ensures f[HEADER_LEN..] == payload
  {
    [h.parity, h.seqNo, h.cmdType, h.cmdLen] + payload
  }

  /** Reading a command back through a `struct serial_cmd *`. */
  function HeaderOf(f: seq<Byte>): Header
    requires |f| >= HEADER_LEN
  {
    Header(f[0], f[1], f[2], f[3])
  }

  lemma LayoutRoundTrip(h: Header, payload: seq<Byte>)
    ensures HeaderOf(Layout(h, payload)) == h
    ensures Layout(h, payload)[HEADER_LEN..] == payload
  {
  }

  /** Every command that fits one slot leaves at most MAX_PAYLOAD bytes of payload. */
  lemma SlotBoundsPayload(h: Header, payload: seq<Byte>)
    requires |Layout(h, payload)| <= CMD_LEN
    ensures |payload| <= MAX_PAYLOAD && MAX_PAYLOAD == 251
  {
  }
}
