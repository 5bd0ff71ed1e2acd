/** The consumer half of the main loop of LightFanTemp/main.cpp: a pending slot of the receive
    ring is handed to process_message and the consumer index moves on. */
module MainLoop {
  import opened Protocol
  import opened Codec
  import opened Decoder
  import opened Ring
  import RoundTrip
  import Dispatcher
  import SerialComms
  import Leds

  /** `if (serial_buf_pidx != serial_buf_cidx) { process_message(...); serial_buf_cidx = ...; }`:
      with a frame pending, the oldest one is processed and removed from the pending frames;
      otherwise nothing happens. */
  method ServiceRing(link: SerialComms.Link, display: Leds.Display)
    returns (processed: bool, effect: Dispatcher.Effect)
    requires link.Valid() && display.Valid()
    modifies link, display, display.ledPrograms
    ensures link.Valid() && display.Valid()
    ensures processed <==> old(link.pidx) != old(link.cidx)
    ensures processed ==>
      && Count(old(link.Rx())) > 0
      && link.Rx() == Consume(old(link.Rx()))
      && Pending(link.Rx()) == Pending(old(link.Rx()))[1..]
      && SlotOf(old(link.Rx()).mem, old(link.cidx)) == Pending(old(link.Rx()))[0]
      && Dispatcher.Outcome(display.State(), effect)
         == Dispatcher.ProcessMessage(old(display.State()), SlotOf(old(link.Rx()).mem, old(link.cidx)), display.maxSteps)
    ensures !processed ==> link.Rx() == old(link.Rx()) && display.State() == old(display.State())
    ensures link.txSeq == old(link.txSeq) && link.out == old(link.out)
    ensures display.curStep == old(display.curStep)
    ensures display.nextDisplayStepTime == old(display.nextDisplayStepTime)
    ensures display.doDisplay == old(display.doDisplay) && display.pixels == old(display.pixels)
  {
    processed, effect := false, Dispatcher.NoEffect;
    if link.pidx != link.cidx {
      ConsumeOldest(link.Rx());
      var slot := link.ConsumerSlot();
      effect := display.ProcessMessage(slot);
      link.AdvanceConsumer();
      processed := true;
    }
  }

  /** End to end: a log line sent by send_log and received into a ring with room is, once the
      main loop reaches it, forwarded by process_message as exactly the same text, with the
      LED programs untouched — provided the text holds no NUL, since it travels as a C string. */
  lemma LogDelivered(s: RxState, seqNo: Byte, text: seq<Byte>, p: Dispatcher.Programs, maxSteps: nat)
    requires Valid(s) && s.state == MsgStart && |text| <= MAX_LOG
    requires forall i :: 0 <= i < |text| ==> text[i] != 0
    requires Count(s) < s.entries - 1 && Dispatcher.ProgramsValid(p, maxSteps)
    ensures var t := Run(s, Frame(LogFrame(seqNo, text)));
      && Pending(t) == Pending(s) + [SlotOf(t.mem, s.pidx)]
      && Dispatcher.ProcessMessage(p, SlotOf(t.mem, s.pidx), maxSteps) == Dispatcher.Outcome(p, Dispatcher.Logged(text))
  {
    RoundTrip.LogRoundTrip(s, seqNo, text);
    var t := Run(s, Frame(LogFrame(seqNo, text)));
    var slot := SlotOf(t.mem, s.pidx);
    assert slot[2] == SEND_LOG;
    var n := HEADER_LEN + |text| + 1;
    assert slot[HEADER_LEN..] == text + [0] + slot[n..] by {
      assert slot[HEADER_LEN..] == slot[HEADER_LEN..n] + slot[n..];
    }
    Dispatcher.CStringTerminated(text, slot[n..]);
  }
}
