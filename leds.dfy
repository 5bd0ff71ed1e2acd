/** The LED globals of LightFanTemp/main.cpp and the functions that change them:
    switch_programs, resume_animation, set_strip_intensity, light_drawer, the display step of
    the main loop, and process_message acting on led_programs through shadow_prg and cur_prg.
    put_pixel appends to `pixels`. */
module Leds {
  import opened Protocol
  import opened LedHelpers
  import opened LedPrograms
  import Dispatcher

  /** switch_programs on the program indices: cur_prg goes to led_programs[1] when it was
      led_programs[0] and to led_programs[0] otherwise, and shadow_prg to the other one. */
  function Switched(p: Dispatcher.Programs): (q: Dispatcher.Programs)
    ensures q.progs == p.progs && q.cur < 2 && q.shadow == 1 - q.cur
  {
    if p.cur == 0 then p.(cur := 1, shadow := 0) else p.(cur := 0, shadow := 1)
  }

  /** After switch_programs the two indices always differ and the programs are untouched;
      from two distinct indices it exchanges them, so switching twice restores the original,
      and it also separates indices that SWITCH_PROGRAMS had collapsed. */
  lemma SwitchProgramsToggles(p: Dispatcher.Programs, maxSteps: nat)
    requires Dispatcher.ProgramsValid(p, maxSteps)
    ensures var q := Switched(p);
      && Dispatcher.ProgramsValid(q, maxSteps)
      && q.progs == p.progs
      && q.cur != q.shadow
      && q.cur == 1 - p.cur
      && (p.cur != p.shadow ==> q.cur == p.shadow && q.shadow == p.cur)
      && Switched(q).cur == p.cur
  {
  }

  class Display {
    const ledPrograms: array<LedProgram>   // led_programs[NUM_LED_PROGRAMS]
    var cur: nat                           // cur_prg, as an index into led_programs
    var shadow: nat                        // shadow_prg, as an index into led_programs
    var curStep: nat                       // cur_step (uint8_t)
    var nextDisplayStepTime: int           // next_display_step_time
    var doDisplay: bool                    // do_display
    var pixels: seq<U32>                   // every value handed to put_pixel so far
    const maxSteps: nat                    // entries of led_program_entry in a program

    /** The program store as process_message sees it. */
    ghost function State(): Dispatcher.Programs
      reads this, ledPrograms
    {
      Dispatcher.Programs(ledPrograms[..], cur, shadow)
    }

    ghost predicate Valid()
      reads this, ledPrograms
    {
      ledPrograms.Length == 2 && Dispatcher.ProgramsValid(State(), maxSteps) && curStep < 256
    }

    /** The two programs given, led_programs[0] active and led_programs[1] the shadow. */
    constructor (p0: LedProgram, p1: LedProgram, steps: nat)
      requires WellFormed(p0, steps) && WellFormed(p1, steps)
      ensures Valid() && fresh(ledPrograms)
      ensures State() == Dispatcher.Programs([p0, p1], 0, 1)
      ensures curStep == 0 && nextDisplayStepTime == 0 && !doDisplay && pixels == []
      ensures maxSteps == steps
    {
      ledPrograms := new LedProgram[2][p0, p1];
      cur, shadow := 0, 1;
      curStep, nextDisplayStepTime, doDisplay := 0, 0, false;
      pixels := [];
      maxSteps := steps;
    }

    /** The pixel loop shared by set_strip_intensity and clear_strip: the colour on all 42
        LED ICs. */
    method PutStrip(color: U32)
      modifies this`pixels
      ensures pixels == old(pixels) + StripPixels(color)
    {
      var i := 0;
      while i < NUM_LEDS_IN_STRIP
        invariant i <= NUM_LEDS_IN_STRIP
        invariant pixels == old(pixels) + StripPixels(color)[..i]
      {
        pixels := pixels + [color];
        i := i + 1;
      }
    }

    /** clear_strip: 42 zero pixels. */
    method ClearStrip()
      modifies this`pixels
      ensures pixels == old(pixels) + StripPixels(0)
    {
      PutStrip(0);
    }

    /** set_strip_intensity(color): stops the animation and shows one colour everywhere. */
    method SetStripIntensity(color: U32)
      modifies this`doDisplay, this`pixels
      ensures !doDisplay && pixels == old(pixels) + StripPixels(color)
    {
      doDisplay := false;
      PutStrip(color);
    }

    /** light_drawer(drawer, color): stops the animation, clears the strip, then lights the
        drawer's six ICs and sends 0 for every other one. */
    method LightDrawer(drawer: Byte, color: U32)
      modifies this`doDisplay, this`pixels
      ensures !doDisplay
      ensures pixels == old(pixels) + StripPixels(0) + DrawerPixels(drawer, color)
    {
      doDisplay := false;
      ClearStrip();
      var before := pixels;
      var i := 0;
      while i < NUM_LEDS_IN_STRIP
        invariant i <= NUM_LEDS_IN_STRIP
        invariant pixels == before + DrawerPixels(drawer, color)[..i]
        invariant !doDisplay
      {
        if i >= StartOffset(drawer) && i < EndOffset(drawer) {
          pixels := pixels + [color];
        } else {
          pixels := pixels + [0];
        }
        i := i + 1;
      }
    }

    /** switch_programs: the strip is cleared, the programs exchange roles, and the animation
        restarts from step 0 at once. */
    method SwitchPrograms()
      requires Valid()
      modifies this
      ensures Valid() && State() == Switched(old(State()))
      ensures pixels == old(pixels) + StripPixels(0)
      ensures curStep == 0 && nextDisplayStepTime == 0 && doDisplay
    {
      doDisplay := false;
      ClearStrip();
      if cur == 0 {
        cur := 1;
        shadow := 0;
      } else {
        cur := 0;
        shadow := 1;
      }
      nextDisplayStepTime := 0;
      curStep := 0;
      doDisplay := true;
    }

    /** resume_animation. */
    method ResumeAnimation()
      modifies this`doDisplay
      ensures doDisplay
    {
      doDisplay := true;
    }

    /** The `if (do_display)` block of the main loop at time `now`: once the step is due, the
        current step's 42 colours go out, the cursor advances (wrapping at num_steps) and the
        next step is due after the new step's time. The two reads of led_program_entry must be
        in range; nothing else is required. */
    method DisplayTick(now: int)
      requires Valid()
      requires doDisplay && now >= nextDisplayStepTime ==>
        curStep < maxSteps && NextStep(curStep, ledPrograms[cur].numSteps) < maxSteps
      modifies this
      ensures Valid() && State() == old(State()) && doDisplay == old(doDisplay)
      ensures if old(doDisplay) && now >= old(nextDisplayStepTime) then
          && pixels == old(pixels) + ledPrograms[cur].steps[old(curStep)].leds
          && curStep == NextStep(old(curStep), ledPrograms[cur].numSteps)
          && nextDisplayStepTime == now + ledPrograms[cur].steps[curStep].time
        else
          pixels == old(pixels) && curStep == old(curStep) && nextDisplayStepTime == old(nextDisplayStepTime)
    {
      if doDisplay && now >= nextDisplayStepTime {
        var prg := ledPrograms[cur];
        assert WellFormed(ledPrograms[..][cur], maxSteps);
        var leds := prg.steps[curStep].leds;
        var i := 0;
        while i < NUM_LEDS_IN_STRIP
          invariant i <= NUM_LEDS_IN_STRIP
          invariant pixels == old(pixels) + leds[..i]
          invariant unchanged(`cur, `shadow, `curStep, `doDisplay, `nextDisplayStepTime)
        {
          pixels := pixels + [leds[i]];
          i := i + 1;
        }
        curStep := NextStep(curStep, prg.numSteps);
        nextDisplayStepTime := now + prg.steps[curStep].time;
      }
    }

    /** process_message on the slot handed over by the main loop, writing led_programs through
        shadow_prg and moving cur_prg and shadow_prg in place. */
    method ProcessMessage(slot: seq<Byte>) returns (effect: Dispatcher.Effect)
      requires Valid() && |slot| == CMD_LEN
      modifies this, ledPrograms
      ensures Valid()
      ensures Dispatcher.Outcome(State(), effect) == Dispatcher.ProcessMessage(old(State()), slot, maxSteps)
      ensures curStep == old(curStep) && nextDisplayStepTime == old(nextDisplayStepTime)
      ensures doDisplay == old(doDisplay) && pixels == old(pixels)
    {
      effect := Dispatcher.NoEffect;
      var cmdType := slot[2];
      if cmdType == SET_LED_COLOR {
        var prgStep, led := slot[HEADER_LEN], slot[HEADER_LEN + 1];
        if prgStep < maxSteps && led < NUM_LEDS_IN_STRIP {
          assert WellFormed(ledPrograms[..][shadow], maxSteps);
          var color := slot[HEADER_LEN + 1] as int * 0x1_0000 + slot[HEADER_LEN + 2] as int * 0x100
                       + slot[HEADER_LEN + 3] as int;
          ledPrograms[shadow] := Dispatcher.SetLed(ledPrograms[shadow], prgStep, led, color);
        } else {
          effect := Dispatcher.Undefined;
        }
      } else if cmdType == SET_LED_TIME {
        var prgStep := slot[HEADER_LEN];
        if prgStep < maxSteps {
          assert WellFormed(ledPrograms[..][shadow], maxSteps);
          var time := slot[HEADER_LEN + 1] as int * 0x100 + slot[HEADER_LEN + 2] as int;
          ledPrograms[shadow] := Dispatcher.SetTime(ledPrograms[shadow], prgStep, time);
        } else {
          effect := Dispatcher.Undefined;
        }
      } else if cmdType == SET_LED_COLOR_BULK || cmdType == SET_LED_TIME_BULK {
        effect := Dispatcher.Undefined;
      } else if cmdType == SWITCH_PROGRAMS {
        cur := shadow;
        shadow := cur;
      } else if cmdType == SEND_LOG {
        effect := Dispatcher.Logged(Dispatcher.CString(slot[HEADER_LEN..]));
      }
    }
  }
}
