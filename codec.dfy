/** The transmit side of the link: byte stuffing (uart_tx) and the log frame
    assembled by send_log (LightFanTemp/serial_comms.c). */
module Codec {
  import opened Protocol

  /** What uart_tx emits for one source byte: the byte, preceded by ESCAPE_CHAR when it is a marker. */
  function EscapeByte(b: Byte): (w: seq<Byte>)
    ensures |w| == if IsMarker(b) then 2 else 1
    ensures w[|w| - 1] == b
  {
    if IsMarker(b) then [ESCAPE_CHAR, b] else [b]
  }

  /** The stuffed body uart_tx emits between the two markers, source byte by source byte. */
  function Stuff(src: seq<Byte>): seq<Byte>
  {
    if src == [] then [] else Stuff(src[..|src| - 1]) + EscapeByte(src[|src| - 1])
  }

  /** Everything uart_tx(src, len) hands to put_char. */
  function Frame(src: seq<Byte>): (w: seq<Byte>)
    ensures |w| >= 2 && w[0] == START_CHAR && w[|w| - 1] == END_CHAR
  {
    [START_CHAR] + Stuff(src) + [END_CHAR]
  }

  /** Number of bytes in `src` that get an escape prefix. */
  function MarkerCount(src: seq<Byte>): nat
  {
    if src == [] then 0 else MarkerCount(src[..|src| - 1]) + (if IsMarker(src[|src| - 1]) then 1 else 0)
  }

  lemma {:induction false} StuffAppend(a: seq<Byte>, b: seq<Byte>)
    ensures Stuff(a + b) == Stuff(a) + Stuff(b)
    decreases |b|
  {
    if b == [] {
      assert a + b == a;
    } else {
      var b' := b[..|b| - 1];
      assert (a + b)[..|a + b| - 1] == a + b';
      StuffAppend(a, b');
    }
  }

  /** Stuffing one byte at the front: the decoder consumes the stream from that end. */
  lemma StuffCons(b: Byte, rest: seq<Byte>)
    ensures Stuff([b] + rest) == EscapeByte(b) + Stuff(rest)
  {
    StuffAppend([b], rest);
    assert [b][..0] == [];
  }

  lemma {:induction false} StuffLength(src: seq<Byte>)
    ensures |Stuff(src)| == |src| + MarkerCount(src)
  {
    if src != [] {
      StuffLength(src[..|src| - 1]);
    }
  }

  /** uart_tx's output length: start, end, every source byte and one escape per marker. */
  lemma FrameLength(src: seq<Byte>)
    ensures |Frame(src)| == |src| + 2 + MarkerCount(src)
    ensures Frame(src)[0] == START_CHAR && Frame(src)[|Frame(src)| - 1] == END_CHAR
  {
    StuffLength(src);
  }

  /** Inside a stuffed body every marker byte is either an escape or directly follows one. */
  lemma {:induction false} StuffHasNoBareMarker(src: seq<Byte>, k: nat)
    requires k < |Stuff(src)| && Stuff(src)[k] != ESCAPE_CHAR && IsMarker(Stuff(src)[k])
    ensures k > 0 && Stuff(src)[k - 1] == ESCAPE_CHAR
  {
    var init := src[..|src| - 1];
    var e := EscapeByte(src[|src| - 1]);
    if k < |Stuff(init)| {
      StuffHasNoBareMarker(init, k);
    }
  }

  /** An independent reference for the receiver's escape handling: drop each escape and keep
      the byte after it. */
  function Unstuff(w: seq<Byte>): seq<Byte>
  {
    if w == [] then []
    else if w[0] == ESCAPE_CHAR && |w| >= 2 then [w[1]] + Unstuff(w[2..])
    else [w[0]] + Unstuff(w[1..])
  }

  lemma {:induction false} UnstuffStuff(src: seq<Byte>)
    ensures Unstuff(Stuff(src)) == src
    decreases |src|
  {
    if src != [] {
      var b, rest := src[0], src[1..];
      assert src == [b] + rest;
      StuffCons(b, rest);
      UnstuffStuff(rest);
      var w := EscapeByte(b) + Stuff(rest);
      if IsMarker(b) {
        assert w[2..] == Stuff(rest);
      } else {
        assert w[1..] == Stuff(rest);
      }
    }
  }

  /** Longest text send_log can carry: vsnprintf is given CMD_LEN - 4 bytes, one of them the NUL. */
  const MAX_LOG: nat := CMD_LEN - HEADER_LEN - 1

  /** The header+payload send_log leaves in rsp_buf for `text` sent as sequence `seqNo`: checksum,
      seq, SEND_LOG, text length plus the NUL, then the text and the NUL. */
  function LogFrame(seqNo: Byte, text: seq<Byte>): (f: seq<Byte>)
    requires |text| <= MAX_LOG
    ensures |f| == |text| + HEADER_LEN + 1 <= CMD_LEN
  {
    var body := [seqNo, SEND_LOG, |text| + 1] + text + [0];
    [Checksum([0] + body)] + body
  }

  /** The checksum send_log writes is the one the receiver recomputes: the sum of every byte
      after it, and equally the sum of the whole frame taken with the checksum field at 0. */
  lemma LogFrameChecksum(seqNo: Byte, text: seq<Byte>)
    requires |text| <= MAX_LOG
    ensures var f := LogFrame(seqNo, text);
      && |f| == |text| + 5 <= CMD_LEN
      && HeaderOf(f) == Header(f[0], seqNo, SEND_LOG, |text| + 1)
      && f[HEADER_LEN..] == text + [0]
      && f[0] == Checksum(f[1..])
      && f[0] == Checksum([0] + f[1..])
  {
    var body := [seqNo, SEND_LOG, |text| + 1] + text + [0];
    var f := LogFrame(seqNo, text);
    assert f[1..] == body;
    SumAppend([0], body);
    assert Sum([0]) == Sum([0][..0]) + 0;
    assert f[HEADER_LEN..] == text + [0];
  }

  /** The bytes of the string "Hello!". */
  const HELLO: seq<Byte> := [0x48, 0x65, 0x6C, 0x6C, 0x6F, 0x21]

  /** The hand-checked frame of the receiver's first unit test: A5 6C 00 50 07 "Hello!" 00 5A. */
  const HELLO_WIRE: seq<Byte> :=
    [START_CHAR, 0x6C, 0x00, 0x50, 0x07, 0x48, 0x65, 0x6C, 0x6C, 0x6F, 0x21, 0x00, END_CHAR]

  /** Sending "Hello!" as the first log puts exactly the hand-checked frame on the wire. */
  lemma HelloOnTheWire()
    ensures LogFrame(0, HELLO) == HELLO_WIRE[1..|HELLO_WIRE| - 1]
    ensures Frame(LogFrame(0, HELLO)) == HELLO_WIRE
  {
    var body: seq<Byte> := [0x00, 0x50, 0x07, 0x48, 0x65, 0x6C, 0x6C, 0x6F, 0x21, 0x00];
    var f: seq<Byte> := [0x6C] + body;
    assert HELLO_WIRE[1..|HELLO_WIRE| - 1] == f;
    HelloChecksum();
    assert [0] + body == HELLO_SUMMED;
    assert [0, SEND_LOG, |HELLO| + 1] + HELLO + [0] == body;
    assert LogFrame(0, HELLO) == f;
    assert forall i :: 0 <= i < |f| ==> !IsMarker(f[i]);
    NoMarkerStuff(f);
    assert Frame(f) == HELLO_WIRE;
  }

  /** The "Hello!" frame's bytes as send_log sums them, with the checksum field still 0. */
  const HELLO_SUMMED: seq<Byte> := [0x00, 0x00, 0x50, 0x07, 0x48, 0x65, 0x6C, 0x6C, 0x6F, 0x21, 0x00]

  lemma HelloChecksum()
    ensures Checksum(HELLO_SUMMED) == 0x6C
  {
    var s := HELLO_SUMMED;
    assert s[..0] == [];
    SumPrefix(s, 0); SumPrefix(s, 1); SumPrefix(s, 2); SumPrefix(s, 3);
    SumPrefix(s, 4); SumPrefix(s, 5); SumPrefix(s, 6); SumPrefix(s, 7);
    SumPrefix(s, 8); SumPrefix(s, 9); SumPrefix(s, 10);
    assert s[..11] == s;
  }

  lemma SumPrefix(s: seq<Byte>, k: nat)
    requires k < |s|
    ensures Sum(s[..k + 1]) == Sum(s[..k]) + s[k]
  {
    assert s[..k + 1][..k] == s[..k];
  }

  /** A byte string without markers goes on the wire unchanged. */
  lemma {:induction false} NoMarkerStuff(src: seq<Byte>)
    requires forall i :: 0 <= i < |src| ==> !IsMarker(src[i])
    ensures Stuff(src) == src
  {
    if src != [] {
      NoMarkerStuff(src[..|src| - 1]);
    }
  }
}
