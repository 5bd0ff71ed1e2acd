/** The globals and functions of LightFanTemp/serial_comms.c that run on the controller board:
    the transmit path (uart_tx, send_log) and the receive path (uart_rx), with double_rx_buf
    as the receive ring and put_char appending to `out`. */
module SerialComms {
  import opened Protocol
  import opened Codec
  import opened Decoder
  import Ring

  class Link {
    var parserState: ParserState       // parser_state
    var prevParserState: ParserState   // prev_parser_state
    var pos: nat                       // pos
    var parity: Byte                   // parity
    var rxSeq: Byte                    // rx_seq
    var txSeq: Byte                    // tx_seq
    var pidx: nat                      // serial_buf_pidx
    var cidx: nat                      // serial_buf_cidx
    var rxBase: nat                    // rx_buf, as an offset into double_rx_buf
    const entries: nat                 // NUM_ENTRIES
    const doubleRxBuf: array<Byte>     // double_rx_buf
    const rspBuf: array<Byte>          // rsp_buf
    var out: seq<Byte>                 // every byte handed to put_char so far

    /** The receive-side globals as the decoder specification sees them. */
    ghost function Rx(): RxState
      reads this, doubleRxBuf
    {
      RxState(parserState, prevParserState, pos, parity, rxSeq, pidx, cidx, rxBase,
              doubleRxBuf[..], entries)
    }

    ghost predicate Valid()
      reads this, doubleRxBuf
    {
      Decoder.Valid(Rx()) && rspBuf.Length == CMD_LEN && rspBuf != doubleRxBuf
    }

    /** The globals as the C runtime zero-initialises them, with `n` ring slots. */
    constructor (n: nat)
      requires 2 <= n <= 256
      ensures Valid() && fresh(doubleRxBuf) && fresh(rspBuf)
      ensures Rx() == RxState(MsgStart, MsgStart, 0, 0, 0, 0, 0, 0, seq(CMD_LEN * n, _ => 0), n)
      ensures txSeq == 0 && out == []
    {
      parserState, prevParserState := MsgStart, MsgStart;
      pos, parity, rxSeq, txSeq := 0, 0, 0, 0;
      pidx, cidx, rxBase := 0, 0, 0;
      entries := n;
      doubleRxBuf := new Byte[CMD_LEN * n](_ => 0);
      rspBuf := new Byte[CMD_LEN](_ => 0);
      out := [];
    }

    /** uart_tx: the start marker, every byte of src[..len] with an escape before each marker,
        then the end marker. */
    method UartTx(src: array<Byte>, len: nat)
      requires len <= src.Length
      modifies this`out
      ensures out == old(out) + Frame(src[..len])
    {
      out := out + [START_CHAR];
      var i := 0;
      while i < len
        invariant i <= len
        invariant out == old(out) + [START_CHAR] + Stuff(src[..i])
      {
        if src[i] == START_CHAR || src[i] == END_CHAR || src[i] == ESCAPE_CHAR {
          out := out + [ESCAPE_CHAR];
        }
        out := out + [src[i]];
        assert src[..i + 1][..i] == src[..i];
        i := i + 1;
      }
      out := out + [END_CHAR];
    }

    /** The checksum loop of send_log: the uint8_t sum of the first `n` bytes of `a`. */
    static method SumChecksum(a: array<Byte>, n: nat) returns (p: Byte)
      requires n <= a.Length
      ensures p == Checksum(a[..n])
    {
      p := 0;
      var i := 0;
      while i < n
        invariant i <= n
        invariant p == Checksum(a[..i])
      {
        ChecksumStep(a[..i], a[i]);
        assert a[..i + 1] == a[..i] + [a[i]];
        p := (p as int + a[i]) % 256;
        i := i + 1;
      }
    }

    /** send_log with its formatted text already in hand: header, text and NUL in rsp_buf,
        the checksum over the whole frame taken with the checksum field at 0, the frame sent
        through uart_tx, and tx_seq advanced by one modulo 256. */
    method SendLog(text: seq<Byte>)
      requires Valid() && |text| <= MAX_LOG
      modifies this, rspBuf
      ensures Valid() && Rx() == old(Rx())
      ensures rspBuf[..|text| + 5] == LogFrame(old(txSeq), text)
      ensures out == old(out) + Frame(LogFrame(old(txSeq), text))
      ensures txSeq == (old(txSeq) as int + 1) % 256
    {
      FillLog(text);
      var calcParity := SumChecksum(rspBuf, rspBuf[3] + 4);
      rspBuf[0] := calcParity;
      assert rspBuf[..|text| + 5] == [calcParity] + rspBuf[1..|text| + 5];
      UartTx(rspBuf, rspBuf[3] + 4);
      txSeq := (txSeq as int + 1) % 256;
    }

    /** The part of send_log before the checksum loop: checksum field 0, seq, SEND_LOG, the
        text as vsnprintf leaves it at rsp->cmd, and `rsp->cmd[rsp->cmd_len++] = 0`. */
    method FillLog(text: seq<Byte>)
      requires rspBuf.Length == CMD_LEN && |text| <= MAX_LOG
      modifies rspBuf
      ensures rspBuf[3] == |text| + 1
      ensures rspBuf[..|text| + 5] == [0] + ([txSeq, SEND_LOG, |text| + 1] + text + [0])
    {
      rspBuf[2] := SEND_LOG;
      rspBuf[0] := 0;
      rspBuf[1] := txSeq;
      var k := 0;
      while k < |text|
        invariant k <= |text|
        invariant rspBuf[..3] == [0, txSeq, SEND_LOG]
        invariant rspBuf[4..4 + k] == text[..k]
      {
        rspBuf[4 + k] := text[k];
        k := k + 1;
      }
      rspBuf[3] := |text|;
      rspBuf[4 + rspBuf[3]] := 0;
      rspBuf[3] := rspBuf[3] + 1;
      assert rspBuf[4..|text| + 5] == text + [0];
    }

    /** uart_rx(ch): one step of the receive state machine, storing in place into the current
        slot of double_rx_buf and committing it at the end of a frame. */
    method UartRx(ch: Byte) returns (ret: int)
      requires Valid()
      modifies this, doubleRxBuf
      ensures Valid()
      ensures Rx() == Step(old(Rx()), ch).next && ret == Step(old(Rx()), ch).ret
      ensures txSeq == old(txSeq) && out == old(out)
    {
      ParseByte(ch);
      if parserState == MsgEnd {
        EndOfFrame();
        return 0;
      }
      return 1;
    }

    /** The `switch (parser_state)` of uart_rx. */
    method ParseByte(ch: Byte)
      requires Valid()
      modifies this, doubleRxBuf
      ensures Rx() == Receive(old(Rx()), ch)
      ensures txSeq == old(txSeq) && out == old(out)
    {
      match parserState {
      case MsgStart =>
        if ch == START_CHAR {
          parserState := MsgParityRcv;
          pos := 0;
          parity := 0;
        } else {
          parserState := MsgStart;
        }
      case MsgParityRcv =>
        if ch == ESCAPE_CHAR {
          parserState := MsgEscape;
          prevParserState := MsgParityRcv;
        } else {
          RxBufPut(ch);
          parserState := MsgRcv;
        }
      case MsgRcv =>
        if ch == ESCAPE_CHAR {
          parserState := MsgEscape;
          prevParserState := MsgRcv;
        } else if ch == END_CHAR {
          parserState := MsgEnd;
        } else {
          parity := (parity as int + ch) % 256;
          RxBufPut(ch);
        }
      case MsgEscape =>
        if prevParserState == MsgRcv {
          parity := (parity as int + ch) % 256;
          RxBufPut(ch);
        } else if prevParserState == MsgParityRcv {
          RxBufPut(ch);
        }
        parserState := MsgRcv;
      }
    }

    /** The `if (parser_state == MSG_END)` block of uart_rx. */
    method EndOfFrame()
      requires Decoder.Valid(Rx().(state := MsgStart)) && parserState == MsgEnd
      modifies this
      ensures Rx() == Complete(old(Rx()))
      ensures txSeq == old(txSeq) && out == old(out)
    {
      var rcvSeq := doubleRxBuf[rxBase + 1];
      if rcvSeq != rxSeq {
        rxSeq := (rcvSeq as int + 1) % 256;
      } else {
        rxSeq := (rxSeq as int + 1) % 256;
      }
      if doubleRxBuf[rxBase] == parity {
        if (pidx + 1) % entries != cidx {
          pidx := (pidx + 1) % entries;
          rxBase := CMD_LEN * pidx;
        }
      }
      parserState := MsgStart;
    }

    /** `rx_buf[pos++] = ch`: a store past the end of double_rx_buf is dropped. */
    method RxBufPut(ch: Byte)
      requires Decoder.Valid(Rx().(state := MsgStart))
      modifies this`pos, doubleRxBuf
      ensures Rx() == Store(old(Rx()), ch)
    {
      if rxBase + pos < doubleRxBuf.Length {
        doubleRxBuf[rxBase + pos] := ch;
      }
      pos := pos + 1;
    }

    /** The slot the main loop hands to process_message. */
    function ConsumerSlot(): (slot: seq<Byte>)
      requires Valid()
      reads this, doubleRxBuf
      ensures slot == Ring.SlotOf(Rx().mem, cidx)
    {
      doubleRxBuf[CMD_LEN * cidx .. CMD_LEN * cidx + CMD_LEN]
    }

    /** `serial_buf_cidx = (serial_buf_cidx + 1) % NUM_ENTRIES` after a slot is processed. */
    method AdvanceConsumer()
      requires Valid() && pidx != cidx
      modifies this`cidx
      ensures Valid() && Rx() == Ring.Consume(old(Rx()))
    {
      cidx := (cidx + 1) % entries;
    }
  }
}
