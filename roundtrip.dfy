/** End to end: what uart_tx and send_log put on the wire, fed byte by byte to uart_rx,
    lands in the receive ring (LightFanTemp/serial_comms.c, LightFanTemp/comms_unit_test.c). */
module RoundTrip {
  import opened Protocol
  import opened Codec
  import opened Decoder
  import opened Ring

  /** A frame of 2 to CMD_LEN bytes arriving from MSG_START is appended to the pending frames
      exactly when its checksum matches and the ring has room, and then the new slot begins
      with the frame byte for byte; otherwise the pending frames are untouched. */
  lemma FramePending(s: RxState, f: seq<Byte>, cw: seq<Byte>)
    requires Valid(s) && s.state == MsgStart
    requires 2 <= |f| <= CMD_LEN && ChecksumWire(f[0], cw)
    ensures var t := Run(s, Wire(f, cw));
      && t.state == MsgStart
      && t.rxSeq == (f[1] as int + 1) % 256
      && if f[0] == Checksum(f[1..]) && Count(s) < s.entries - 1
         then Pending(t) == Pending(s) + [SlotOf(t.mem, s.pidx)]
              && SlotOf(t.mem, s.pidx)[..|f|] == f
         else Pending(t) == Pending(s)
  {
    DecodeFrame(s, f, cw);
    Capacity(s);
    var t := Run(s, Wire(f, cw));
    WrittenSlot(s, t.mem, f);
    if f[0] == Checksum(f[1..]) && Count(s) < s.entries - 1 {
      PendingCommitted(s, t);
    } else {
      PendingUnchanged(s, t);
    }
  }

  /** A frame whose checksum held when it was sent, but which arrives with any one byte
      changed (the checksum byte included), is dropped: the pending frames are untouched. */
  lemma CorruptedFrameDropped(s: RxState, f: seq<Byte>, j: nat, b: Byte)
    requires Valid(s) && s.state == MsgStart
    requires 2 <= |f| <= CMD_LEN && f[0] == Checksum(f[1..])
    requires j < |f| && b != f[j]
    ensures Pending(Run(s, Frame(f[j := b]))) == Pending(s)
  {
    var g := f[j := b];
    StuffedFramePending(s, g);
    if j == 0 {
      assert g[1..] == f[1..];
    } else {
      assert g[1..] == f[1..][j - 1 := b];
      ChecksumDetectsChange(f[1..], j - 1, b);
    }
    assert g[0] != Checksum(g[1..]);
  }

  /** A frame written at the start of the producer's slot stays inside it. */
  lemma WrittenSlot(s: RxState, m: seq<Byte>, f: seq<Byte>)
    requires Valid(s) && |f| <= CMD_LEN
    requires s.base + |f| <= |s.mem| && m == WriteAt(s.mem, s.base, f)
    ensures forall j :: 0 <= j < |s.mem| && !(s.base <= j < s.base + CMD_LEN) ==> m[j] == s.mem[j]
    ensures SlotOf(m, s.pidx)[..|f|] == f
  {
    WriteAtIndex(s.mem, s.base, f);
  }

  /** The same for a frame exactly as uart_tx encodes it. */
  lemma StuffedFramePending(s: RxState, f: seq<Byte>)
    requires Valid(s) && s.state == MsgStart
    requires 2 <= |f| <= CMD_LEN
    ensures var t := Run(s, Frame(f));
      && t.state == MsgStart
      && t.rxSeq == (f[1] as int + 1) % 256
      && if f[0] == Checksum(f[1..]) && Count(s) < s.entries - 1
         then Pending(t) == Pending(s) + [SlotOf(t.mem, s.pidx)]
              && SlotOf(t.mem, s.pidx)[..|f|] == f
         else Pending(t) == Pending(s)
  {
    assert f == [f[0]] + f[1..];
    StuffCons(f[0], f[1..]);
    assert Frame(f) == Wire(f, EscapeByte(f[0]));
    FramePending(s, f, EscapeByte(f[0]));
  }

  /** Round trip of send_log: the frame it sends is accepted whenever the ring has room —
      header, text and NUL arrive byte for byte in a new pending slot — and the receiver then
      expects the next sequence number; a full ring drops it. */
  lemma LogRoundTrip(s: RxState, seqNo: Byte, text: seq<Byte>)
    requires Valid(s) && s.state == MsgStart && |text| <= MAX_LOG
    ensures var t := Run(s, Frame(LogFrame(seqNo, text)));
      && t.state == MsgStart
      && t.rxSeq == (seqNo as int + 1) % 256
      && if Count(s) < s.entries - 1
         then && Pending(t) == Pending(s) + [SlotOf(t.mem, s.pidx)]
              && HeaderOf(SlotOf(t.mem, s.pidx)) == Header(Checksum([0] + LogFrame(seqNo, text)[1..]), seqNo, SEND_LOG, |text| + 1)
              && SlotOf(t.mem, s.pidx)[HEADER_LEN..HEADER_LEN + |text| + 1] == text + [0]
         else Pending(t) == Pending(s)
  {
    var f := LogFrame(seqNo, text);
    LogFrameChecksum(seqNo, text);
    StuffedFramePending(s, f);
    var t := Run(s, Frame(f));
    if Count(s) < s.entries - 1 {
      var slot := SlotOf(t.mem, s.pidx);
      assert slot[..|f|] == f;
      assert slot[HEADER_LEN..HEADER_LEN + |text| + 1] == f[HEADER_LEN..];
    }
  }

  /** The first receiver unit test: the hand-checked "Hello!" frame with sequence 0. */
  lemma HelloAccepted(s: RxState)
    requires Valid(s) && s.state == MsgStart
    ensures var t := Run(s, HELLO_WIRE);
      && t.rxSeq == 1
      && if Count(s) < s.entries - 1
         then Pending(t) == Pending(s) + [SlotOf(t.mem, s.pidx)]
              && SlotOf(t.mem, s.pidx)[..|HELLO_WIRE| - 2] == HELLO_WIRE[1..|HELLO_WIRE| - 1]
         else Pending(t) == Pending(s)
  {
    HelloOnTheWire();
    var f := LogFrame(0, HELLO);
    LogFrameChecksum(0, HELLO);
    assert f == HELLO_WIRE[1..|HELLO_WIRE| - 1] && Frame(f) == HELLO_WIRE;
    assert |f| == |HELLO_WIRE| - 2 && f[1] == 0;
    StuffedFramePending(s, f);
    var t := Run(s, Frame(f));
    assert t.rxSeq == 1;
    assert Run(s, HELLO_WIRE) == t;
  }

  /** The third receiver unit test: checksum 0x5A sent unescaped, received with rx_seq 45. */
  const TEST3_WIRE: seq<Byte> :=
    [START_CHAR, 0x5A, 0x2D, 0x50, 0x07, 0x48, 0x38, 0x6C, 0x6C, 0x5D, 0x21, 0x00, END_CHAR]

  /** The frame of that test without its markers. */
  const TEST3_FRAME: seq<Byte> := [0x5A, 0x2D, 0x50, 0x07, 0x48, 0x38, 0x6C, 0x6C, 0x5D, 0x21, 0x00]

  lemma Test3Checksum()
    ensures Checksum(TEST3_FRAME[1..]) == 0x5A
  {
    var s := TEST3_FRAME[1..];
    assert s == [0x2D, 0x50, 0x07, 0x48, 0x38, 0x6C, 0x6C, 0x5D, 0x21, 0x00];
    assert s[..0] == [];
    SumPrefix(s, 0); SumPrefix(s, 1); SumPrefix(s, 2); SumPrefix(s, 3); SumPrefix(s, 4);
    SumPrefix(s, 5); SumPrefix(s, 6); SumPrefix(s, 7); SumPrefix(s, 8); SumPrefix(s, 9);
    assert s[..10] == s;
  }

  /** A bare 0x5A in the checksum position is taken as the checksum, not as the end of the
      frame: the test frame is accepted whenever the ring has room, and the expected sequence
      becomes 46 (the test starts from 45, though the outcome does not depend on it). */
  lemma Test3Accepted(s: RxState)
    requires Valid(s) && s.state == MsgStart
    ensures var t := Run(s, TEST3_WIRE);
      && t.rxSeq == 46
      && if Count(s) < s.entries - 1
         then Pending(t) == Pending(s) + [SlotOf(t.mem, s.pidx)]
              && SlotOf(t.mem, s.pidx)[..|TEST3_FRAME|] == TEST3_FRAME
         else Pending(t) == Pending(s)
  {
    Test3Checksum();
    Test3Wire();
    assert TEST3_FRAME[0] == 0x5A && TEST3_FRAME[1] == 0x2D && |TEST3_FRAME| == 11;
    FramePending(s, TEST3_FRAME, [0x5A]);
  }

  /** The test's wire bytes are the frame, its checksum sent bare, and no escapes in the body. */
  lemma Test3Wire()
    ensures Wire(TEST3_FRAME, [0x5A]) == TEST3_WIRE
  {
    var body := TEST3_FRAME[1..];
    assert body == [0x2D, 0x50, 0x07, 0x48, 0x38, 0x6C, 0x6C, 0x5D, 0x21, 0x00];
    assert forall i :: 0 <= i < |body| ==> !IsMarker(body[i]);
    NoMarkerStuff(body);
    assert Wire(TEST3_FRAME, [0x5A]) == [START_CHAR] + [0x5A] + body + [END_CHAR];
  }
}
