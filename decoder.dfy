/** The receive side of the link (uart_rx in LightFanTemp/serial_comms.c): a one-byte-per-call
    state machine that writes the frame in place into the current ring slot and, at the end
    marker, checks sequence and checksum and commits the slot. */
module Decoder {
  import opened Protocol
  import opened Codec

  /** Every global uart_rx reads or writes. `base` is where rx_buf points, as an offset into
      double_rx_buf, and `mem` is double_rx_buf itself (NUM_ENTRIES slots of CMD_LEN bytes). */
  datatype RxState = RxState(
    state: ParserState,   // parser_state
    prev: ParserState,    // prev_parser_state
    pos: nat,             // pos
    parity: Byte,         // parity: running sum of the frame so far
    rxSeq: Byte,          // rx_seq
    pidx: nat,            // serial_buf_pidx
    cidx: nat,            // serial_buf_cidx
    base: nat,            // rx_buf - double_rx_buf
    mem: seq<Byte>,       // double_rx_buf
    entries: nat)         // NUM_ENTRIES

  /** What holds of the globals between two calls. */
  predicate Valid(s: RxState)
  {
    && 2 <= s.entries <= 256
    && |s.mem| == CMD_LEN * s.entries
    && s.pidx < s.entries && s.cidx < s.entries
    && s.base == CMD_LEN * s.pidx
    && s.state != MsgEnd
  }

  /** `rx_buf[pos++] = ch`. The write lands wherever rx_buf + pos points inside double_rx_buf,
      also past the end of the current slot; a write past the end of double_rx_buf itself is
      undefined in C and is dropped here. */
  function Store(s: RxState, ch: Byte): (t: RxState)
    ensures t.pos == s.pos + 1 && |t.mem| == |s.mem|
    ensures s.base + s.pos < |s.mem| ==> t.mem[s.base + s.pos] == ch
    ensures s.base + s.pos >= |s.mem| ==> t.mem == s.mem
    ensures t.(mem := s.mem, pos := s.pos) == s
  {
    var at := s.base + s.pos;
    s.(mem := if at < |s.mem| then s.mem[at := ch] else s.mem, pos := s.pos + 1)
  }

  /** The `switch (parser_state)` of uart_rx. */
  function Receive(s: RxState, ch: Byte): (t: RxState)
    requires s.state != MsgEnd
    ensures t.rxSeq == s.rxSeq && t.pidx == s.pidx && t.cidx == s.cidx && t.base == s.base
    ensures t.entries == s.entries && |t.mem| == |s.mem|
    ensures t.state == MsgEnd <==> s.state == MsgRcv && ch == END_CHAR
    ensures t.state == MsgEnd ==> t.mem == s.mem && t.parity == s.parity
  {
    match s.state
    case MsgStart =>
      if ch == START_CHAR then s.(state := MsgParityRcv, pos := 0, parity := 0) else s
    case MsgParityRcv =>
      if ch == ESCAPE_CHAR then s.(state := MsgEscape, prev := MsgParityRcv)
      else Store(s, ch).(state := MsgRcv)
    case MsgRcv =>
      if ch == ESCAPE_CHAR then s.(state := MsgEscape, prev := MsgRcv)
      else if ch == END_CHAR then s.(state := MsgEnd)
      else Store(s.(parity := (s.parity as int + ch) % 256), ch)
    case MsgEscape =>
      var t := match s.prev
        case MsgRcv => Store(s.(parity := (s.parity as int + ch) % 256), ch)
        case MsgParityRcv => Store(s, ch)
        case _ => s;
      t.(state := MsgRcv)
    case MsgEnd => s
  }

  /** The `if (parser_state == MSG_END)` block: sequence check and resync, checksum check,
      commit into the ring unless it is full, back to MSG_START. */
  function Complete(s: RxState): (t: RxState)
    requires Valid(s.(state := MsgStart))
    ensures Valid(t) && t.state == MsgStart && t.mem == s.mem
    ensures t.entries == s.entries && t.cidx == s.cidx
    ensures t.rxSeq == (s.mem[s.base + 1] as int + 1) % 256
    ensures t.pidx == (if s.mem[s.base] == s.parity && (s.pidx + 1) % s.entries != s.cidx
                       then (s.pidx + 1) % s.entries else s.pidx)
  {
    var rcvSeq := s.mem[s.base + 1];
    var rxSeq := if rcvSeq != s.rxSeq then (rcvSeq as int + 1) % 256 else (s.rxSeq as int + 1) % 256;
    var checksumOk := s.mem[s.base] == s.parity;
    var full := (s.pidx + 1) % s.entries == s.cidx;
    var pidx := if checksumOk && !full then (s.pidx + 1) % s.entries else s.pidx;
    s.(rxSeq := rxSeq, pidx := pidx, base := CMD_LEN * pidx, state := MsgStart)
  }

  /** The globals after one call of uart_rx, and its return value. */
  datatype StepResult = StepResult(next: RxState, ret: int)

  /** One call of uart_rx(ch). */
  function Step(s: RxState, ch: Byte): (r: StepResult)
    requires Valid(s)
    ensures Valid(r.next)
    ensures r.next.entries == s.entries && r.next.cidx == s.cidx
  {
    var t := Receive(s, ch);
    if t.state == MsgEnd then StepResult(Complete(t), 0) else StepResult(t, 1)
  }

  /** What one call of uart_rx promises: it returns 0 exactly when a frame ends and 1
      otherwise; at the end marker the expected sequence always becomes the received one plus 1,
      the slot is committed only when the checksum matches and the ring has room, and the
      parser goes back to MSG_START; in every call at most the byte at rx_buf + pos is written,
      and it is written with `ch`. */
  lemma StepSpec(s: RxState, ch: Byte)
    requires Valid(s)
    ensures var r := Step(s, ch);
      && (r.ret == 0 <==> s.state == MsgRcv && ch == END_CHAR)
      && (r.ret == 0 || r.ret == 1)
      && (r.ret == 1 ==> r.next.pidx == s.pidx && r.next.rxSeq == s.rxSeq)
      && (r.ret == 0 ==>
        && r.next.state == MsgStart
        && r.next.mem == s.mem
        && r.next.rxSeq == (s.mem[s.base + 1] as int + 1) % 256
        && r.next.pidx == (if s.mem[s.base] == s.parity && (s.pidx + 1) % s.entries != s.cidx
                           then (s.pidx + 1) % s.entries else s.pidx))
      && r.next.mem == (if Stores(s, ch) && s.base + s.pos < |s.mem| then s.mem[s.base + s.pos := ch] else s.mem)
  {
  }

  /** How each byte is handled before the end-of-frame block: in MSG_START anything but the
      start marker is discarded and the start marker clears pos and the running sum; the
      checksum byte is stored but never summed, also when it arrives escaped; a body byte is
      summed and stored; after an escape the parser is always back in MSG_RCV. */
  lemma StepByteHandling(s: RxState, ch: Byte)
    requires Valid(s)
    ensures var t := Step(s, ch).next;
      && (s.state == MsgStart ==>
            t == if ch == START_CHAR then s.(state := MsgParityRcv, pos := 0, parity := 0) else s)
      && (s.state == MsgParityRcv ==> t.parity == s.parity)
      && (s.state == MsgEscape ==> t.state == MsgRcv)
      && (s.state == MsgEscape && s.prev == MsgParityRcv ==> t.parity == s.parity)
      && (s.state == MsgEscape && s.prev == MsgRcv ==> t.parity == (s.parity as int + ch) % 256)
      && (s.state == MsgRcv && ch != ESCAPE_CHAR && ch != END_CHAR ==>
            t.state == MsgRcv && t.parity == (s.parity as int + ch) % 256)
      && (Stores(s, ch) ==> t.pos == s.pos + 1)
  {
  }

  /** Whether uart_rx stores `ch` at rx_buf + pos: a byte in the checksum position or the body
      that is not a marker the parser acts on, and every byte that follows an escape. */
  predicate Stores(s: RxState, ch: Byte)
  {
    match s.state
    case MsgParityRcv => ch != ESCAPE_CHAR
    case MsgRcv => ch != ESCAPE_CHAR && ch != END_CHAR
    case MsgEscape => s.prev == MsgRcv || s.prev == MsgParityRcv
    case _ => false
  }

  /** Feeding a byte stream to uart_rx one byte at a time: the globals afterwards. */
  function Run(s: RxState, w: seq<Byte>): (t: RxState)
    requires Valid(s)
    ensures Valid(t)
    ensures t.entries == s.entries && t.cidx == s.cidx
    decreases |w|
  {
    if w == [] then s else Run(Step(s, w[0]).next, w[1..])
  }

  lemma {:induction false} RunAppend(s: RxState, a: seq<Byte>, b: seq<Byte>)
    requires Valid(s)
    ensures Run(s, a + b) == Run(Run(s, a), b)
    decreases |a|
  {
    if a == [] {
      assert a + b == b;
    } else {
      assert (a + b)[0] == a[0];
      assert (a + b)[1..] == a[1..] + b;
      RunAppend(Step(s, a[0]).next, a[1..], b);
    }
  }

  lemma RunSingle(s: RxState, b: Byte)
    requires Valid(s)
    ensures Run(s, [b]) == Step(s, b).next
  {
    assert [b][1..] == [];
  }

  /** `m` with `d` written from index `at` on. */
  function WriteAt(m: seq<Byte>, at: nat, d: seq<Byte>): (r: seq<Byte>)
    requires at + |d| <= |m|
    ensures |r| == |m|
  {
    m[..at] + d + m[at + |d|..]
  }

  lemma WriteAtIndex(m: seq<Byte>, at: nat, d: seq<Byte>)
    requires at + |d| <= |m|
    ensures forall j :: 0 <= j < |m| ==> WriteAt(m, at, d)[j] == (if at <= j < at + |d| then d[j - at] else m[j])
  {
  }

  lemma WriteAtSnoc(m: seq<Byte>, at: nat, d: seq<Byte>, b: Byte)
    requires at + |d| < |m|
    ensures WriteAt(m, at, d)[at + |d| := b] == WriteAt(m, at, d + [b])
  {
    var x := WriteAt(m, at, d)[at + |d| := b];
    var y := WriteAt(m, at, d + [b]);
    WriteAtIndex(m, at, d);
    WriteAtIndex(m, at, d + [b]);
    assert forall j :: 0 <= j < |m| ==> x[j] == y[j];
  }

  lemma WriteAtCons(m: seq<Byte>, at: nat, f: seq<Byte>)
    requires |f| >= 1 && at + |f| <= |m|
    ensures WriteAt(m[at := f[0]], at + 1, f[1..]) == WriteAt(m, at, f)
  {
    var x := WriteAt(m[at := f[0]], at + 1, f[1..]);
    var y := WriteAt(m, at, f);
    WriteAtIndex(m[at := f[0]], at + 1, f[1..]);
    WriteAtIndex(m, at, f);
    forall j | 0 <= j < |m|
      ensures x[j] == y[j]
    {
      if at + 1 <= j < at + |f| {
        assert f[1..][j - (at + 1)] == f[j - at];
      }
    }
  }

  lemma ModAdd(x: nat, y: nat)
    ensures (x % 256 + y) % 256 == (x + y) % 256
  {
  }

  /** The running parity after one more byte, from the parity before it. */
  lemma ParitySnoc(p0: Byte, sum: nat, b: Byte, p1: int, p2: int)
    requires p1 == (p0 as int + sum) % 256 && p2 == (p1 + b) % 256
    ensures p2 == (p0 as int + (sum + b)) % 256
  {
    ModAdd(p0 as int + sum, b);
  }

  /** One source byte, as uart_tx stuffs it, received in the body of a frame: it is added to
      the running checksum and stored at rx_buf + pos. */
  lemma RunBodyByte(s: RxState, b: Byte)
    requires Valid(s) && s.state == MsgRcv && s.pos < CMD_LEN
    ensures var t := Run(s, EscapeByte(b));
      t == s.(state := MsgRcv, prev := t.prev, pos := s.pos + 1,
              parity := (s.parity as int + b) % 256, mem := s.mem[s.base + s.pos := b])
  {
    if IsMarker(b) {
      assert EscapeByte(b) == [ESCAPE_CHAR, b];
      RunEscapedBodyByte(s, b);
    } else {
      assert EscapeByte(b) == [b];
      RunPlainBodyByte(s, b);
      RunSingle(s, b);
    }
  }

  /** Any other byte in the body is summed and stored as it is. */
  lemma RunPlainBodyByte(s: RxState, b: Byte)
    requires Valid(s) && s.state == MsgRcv && s.pos < CMD_LEN && !IsMarker(b)
    ensures Step(s, b).next ==
      s.(pos := s.pos + 1, parity := (s.parity as int + b) % 256, mem := s.mem[s.base + s.pos := b])
  {
    assert s.base + s.pos < |s.mem|;
    assert Receive(s, b) == Store(s.(parity := (s.parity as int + b) % 256), b);
  }

  /** A marker in the body arrives as escape and byte: the escape is not stored, the byte is
      summed and stored. */
  lemma RunEscapedBodyByte(s: RxState, b: Byte)
    requires Valid(s) && s.state == MsgRcv && s.pos < CMD_LEN
    ensures Run(s, [ESCAPE_CHAR, b]) ==
      s.(state := MsgRcv, prev := MsgRcv, pos := s.pos + 1,
         parity := (s.parity as int + b) % 256, mem := s.mem[s.base + s.pos := b])
  {
    assert s.base + s.pos < |s.mem|;
    RunSingle(s, ESCAPE_CHAR);
    var s1 := Step(s, ESCAPE_CHAR).next;
    assert s1 == s.(state := MsgEscape, prev := MsgRcv);
    RunSingle(s1, b);
    assert Step(s1, b).next == Store(s1.(parity := (s1.parity as int + b) % 256), b).(state := MsgRcv);
    RunAppend(s, [ESCAPE_CHAR], [b]);
    assert [ESCAPE_CHAR] + [b] == [ESCAPE_CHAR, b];
  }

  /** What the stuffed body `d` leaves behind when received from `s`: written in place from
      pos, summed into the parity, counted by pos. */
  predicate BodyReceived(s: RxState, d: seq<Byte>, t: RxState)
    requires s.base + s.pos + |d| <= |s.mem|
  {
    && t.state == MsgRcv && t.pos == s.pos + |d|
    && t.parity == (s.parity as int + Sum(d)) % 256
    && t.mem == WriteAt(s.mem, s.base + s.pos, d)
    && t.rxSeq == s.rxSeq && t.pidx == s.pidx && t.base == s.base
  }

  /** The stuffed body of a frame is received as BodyReceived says. */
  lemma {:induction false} RunBody(s: RxState, d: seq<Byte>)
    requires Valid(s) && s.state == MsgRcv && s.pos + |d| <= CMD_LEN
    ensures s.base + s.pos + |d| <= |s.mem|
    ensures BodyReceived(s, d, Run(s, Stuff(d)))
    decreases |d|
  {
    if d == [] {
      assert Stuff(d) == [] && Sum(d) == 0 && Run(s, Stuff(d)) == s;
      assert (s.parity as int + Sum(d)) % 256 == s.parity as int;
      assert WriteAt(s.mem, s.base + s.pos, d) == s.mem;
    } else {
      var d', b := d[..|d| - 1], d[|d| - 1];
      assert d == d' + [b];
      RunBody(s, d');
      var m := Run(s, Stuff(d'));
      assert Stuff(d) == Stuff(d') + EscapeByte(b);
      RunAppend(s, Stuff(d'), EscapeByte(b));
      RunBodyByte(m, b);
      BodySnoc(s, d', b, m, Run(s, Stuff(d)));
    }
  }

  /** The step of RunBody on the states alone: one more body byte, stored and summed. */
  lemma BodySnoc(s: RxState, d: seq<Byte>, b: Byte, m: RxState, t: RxState)
    requires s.base + s.pos + |d| < |s.mem|
    requires BodyReceived(s, d, m)
    requires t == m.(state := MsgRcv, prev := t.prev, pos := m.pos + 1,
                     parity := (m.parity as int + b) % 256, mem := m.mem[m.base + m.pos := b])
    ensures BodyReceived(s, d + [b], t)
  {
    assert (d + [b])[..|d|] == d;
    assert Sum(d + [b]) == Sum(d) + b;
    ParitySnoc(s.parity, Sum(d), b, m.parity, t.parity);
    WriteAtSnoc(s.mem, s.base + s.pos, d, b);
  }

  /** The checksum field: received escaped as uart_tx sends it, or as a bare byte when it is
      not the escape marker (a bare 0x5A here is a checksum, not an end marker). */
  predicate ChecksumWire(c: Byte, cw: seq<Byte>)
  {
    cw == EscapeByte(c) || (cw == [c] && c != ESCAPE_CHAR)
  }

  lemma RunChecksumField(s: RxState, c: Byte, cw: seq<Byte>)
    requires Valid(s) && s.state == MsgParityRcv && s.pos == 0
    requires ChecksumWire(c, cw)
    ensures var t := Run(s, cw);
      t == s.(state := MsgRcv, prev := t.prev, pos := 1, mem := s.mem[s.base := c])
  {
    assert s.base < |s.mem|;
    if cw == [ESCAPE_CHAR, c] {
      RunSingle(s, ESCAPE_CHAR);
      var s1 := Step(s, ESCAPE_CHAR).next;
      assert s1 == s.(state := MsgEscape, prev := MsgParityRcv);
      RunSingle(s1, c);
      assert Step(s1, c).next == Store(s1, c).(state := MsgRcv);
      RunAppend(s, [ESCAPE_CHAR], [c]);
      assert [ESCAPE_CHAR] + [c] == cw;
    } else {
      RunSingle(s, c);
      assert Step(s, c).next == Store(s, c).(state := MsgRcv);
    }
  }

  /** The start marker and the checksum field. */
  lemma RunHead(s: RxState, c: Byte, cw: seq<Byte>)
    requires Valid(s) && s.state == MsgStart && ChecksumWire(c, cw)
    ensures var t := Run(s, [START_CHAR] + cw);
      t == s.(state := MsgRcv, prev := t.prev, pos := 1, parity := 0, mem := s.mem[s.base := c])
  {
    RunSingle(s, START_CHAR);
    var s1 := Step(s, START_CHAR).next;
    assert s1 == s.(state := MsgParityRcv, pos := 0, parity := 0);
    RunChecksumField(s1, c, cw);
    RunAppend(s, [START_CHAR], cw);
  }

  /** A whole frame `f` (header and payload, 2 to CMD_LEN bytes) arriving on the wire, up to
      and without its end marker. */
  function WireHead(f: seq<Byte>, cw: seq<Byte>): seq<Byte>
    requires |f| >= 1
  {
    [START_CHAR] + cw + Stuff(f[1..])
  }

  /** Everything of a frame before its end marker: the frame is in the slot, the running
      checksum is the sum of all of it after the checksum byte. */
  lemma RunUntilEnd(s: RxState, f: seq<Byte>, cw: seq<Byte>)
    requires Valid(s) && s.state == MsgStart
    requires 2 <= |f| <= CMD_LEN && ChecksumWire(f[0], cw)
    ensures s.base + |f| <= |s.mem|
    ensures var t := Run(s, WireHead(f, cw));
      && t.state == MsgRcv
      && t.mem == WriteAt(s.mem, s.base, f)
      && t.parity == Checksum(f[1..])
      && t.pidx == s.pidx && t.rxSeq == s.rxSeq && t.base == s.base
  {
    var w := [START_CHAR] + cw;
    RunHead(s, f[0], cw);
    var s2 := Run(s, w);
    RunBody(s2, f[1..]);
    var t2 := Run(s2, Stuff(f[1..]));
    assert BodyReceived(s2, f[1..], t2);
    RunAppend(s, w, Stuff(f[1..]));
    calc {
      Run(s2, Stuff(f[1..])).mem;
      WriteAt(s2.mem, s.base + 1, f[1..]);
      { WriteAtCons(s.mem, s.base, f); }
      WriteAt(s.mem, s.base, f);
    }
  }

  /** A whole frame on the wire: its head and the end marker. */
  function Wire(f: seq<Byte>, cw: seq<Byte>): seq<Byte>
    requires |f| >= 1
  {
    WireHead(f, cw) + [END_CHAR]
  }

  /** Decoding one frame from MSG_START: uart_rx returns 0 at the end marker (and only there,
      since the parser is in MSG_RCV before it), the frame lands byte for byte in the current
      slot, the expected sequence becomes the received one plus 1, and the slot is committed
      exactly when the checksum matches and the ring is not full. */
  lemma DecodeFrame(s: RxState, f: seq<Byte>, cw: seq<Byte>)
    requires Valid(s) && s.state == MsgStart
    requires 2 <= |f| <= CMD_LEN && ChecksumWire(f[0], cw)
    ensures s.base + |f| <= |s.mem|
    ensures Step(Run(s, WireHead(f, cw)), END_CHAR).ret == 0
    ensures var t := Run(s, Wire(f, cw));
      && t.state == MsgStart
      && t.mem == WriteAt(s.mem, s.base, f)
      && t.rxSeq == (f[1] as int + 1) % 256
      && t.pidx == (if f[0] == Checksum(f[1..]) && (s.pidx + 1) % s.entries != s.cidx
                    then (s.pidx + 1) % s.entries else s.pidx)
      && t.cidx == s.cidx
  {
    RunUntilEnd(s, f, cw);
    var s3 := Run(s, WireHead(f, cw));
    WriteAtHead(s.mem, s.base, f);
    EndMarker(s3);
    RunSingle(s3, END_CHAR);
    RunAppend(s, WireHead(f, cw), [END_CHAR]);
  }

  /** The end marker in MSG_RCV: uart_rx returns 0 and runs the end-of-frame block. */
  lemma EndMarker(s: RxState)
    requires Valid(s) && s.state == MsgRcv
    ensures var r := Step(s, END_CHAR);
      && r.ret == 0 && r.next.state == MsgStart && r.next.mem == s.mem && r.next.cidx == s.cidx
      && r.next.rxSeq == (s.mem[s.base + 1] as int + 1) % 256
      && r.next.pidx == (if s.mem[s.base] == s.parity && (s.pidx + 1) % s.entries != s.cidx
                         then (s.pidx + 1) % s.entries else s.pidx)
  {
    assert Receive(s, END_CHAR) == s.(state := MsgEnd);
  }

  /** The first two bytes written are the checksum and sequence fields of the frame. */
  lemma WriteAtHead(m: seq<Byte>, at: nat, d: seq<Byte>)
    requires 2 <= |d| && at + |d| <= |m|
    ensures WriteAt(m, at, d)[at] == d[0] && WriteAt(m, at, d)[at + 1] == d[1]
  {
    assert WriteAt(m, at, d)[at..at + |d|] == d;
  }

  /** The same for a frame exactly as uart_tx puts it on the wire. */
  lemma DecodeStuffedFrame(s: RxState, f: seq<Byte>)
    requires Valid(s) && s.state == MsgStart
    requires 2 <= |f| <= CMD_LEN
    ensures s.base + |f| <= |s.mem|
    ensures var t := Run(s, Frame(f));
      && t.state == MsgStart
      && t.mem == WriteAt(s.mem, s.base, f)
      && t.rxSeq == (f[1] as int + 1) % 256
      && t.pidx == (if f[0] == Checksum(f[1..]) && (s.pidx + 1) % s.entries != s.cidx
                    then (s.pidx + 1) % s.entries else s.pidx)
  {
    assert f == [f[0]] + f[1..];
    StuffCons(f[0], f[1..]);
    assert Frame(f) == Wire(f, EscapeByte(f[0]));
    DecodeFrame(s, f, EscapeByte(f[0]));
  }
}
