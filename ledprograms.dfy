/** The LED animation data of the controller board and the pure parts of the LED logic in
    LightFanTemp/main.cpp: the display-step cursor, the pixel vectors of light_drawer and
    set_strip_intensity, and urgb_u32. */
module LedPrograms {
  import opened LedHelpers

  /** One step of an animation (`led_program_entry`): how long it lasts and the colour of every
      LED IC of the strip. */
  datatype LedStep = LedStep(time: int, leds: seq<U32>)

  /** `struct led_programs`: the steps and how many of them are in use. */
  datatype LedProgram = LedProgram(steps: seq<LedStep>, numSteps: int)

  /** A program whose step table has `maxSteps` entries of NUM_LEDS_IN_STRIP LEDs each. */
  predicate WellFormed(p: LedProgram, maxSteps: nat)
  {
    |p.steps| == maxSteps && forall k :: 0 <= k < |p.steps| ==> |p.steps[k].leds| == NUM_LEDS_IN_STRIP
  }

  /** `if (++cur_step == cur_prg->num_steps) cur_step = 0;` with the uint8_t cursor. */
  function NextStep(cur: nat, numSteps: int): (n: nat)
    ensures n < 256
    ensures numSteps != 0 ==> n != numSteps
  {
    var n := (cur + 1) % 256;
    if n == numSteps then 0 else n
  }

  /** In a program of 1 to 256 steps the cursor cycles through them in order: it stays in
      range, and it wraps to 0 exactly after the last step. */
  lemma CursorCycles(cur: nat, numSteps: int)
    requires 0 < numSteps <= 256 && cur < numSteps
    ensures NextStep(cur, numSteps) < numSteps
    ensures NextStep(cur, numSteps) == (cur + 1) % numSteps
    ensures NextStep(cur, numSteps) == 0 <==> cur + 1 == numSteps
  {
    var n := NextStep(cur, numSteps);
    if cur + 1 < numSteps {
      assert (cur + 1) % 256 == cur + 1;
      assert n == cur + 1;
      SmallMod(cur + 1, numSteps);
    } else {
      assert cur + 1 == numSteps;
      if numSteps == 256 {
        assert (cur + 1) % 256 == 0;
      } else {
        assert (cur + 1) % 256 == cur + 1;
      }
      assert n == 0;
      SelfMod(numSteps);
    }
  }

  lemma SmallMod(x: nat, m: int)
    requires x < m
    ensures x % m == x
  {
  }

  lemma SelfMod(m: int)
    requires 0 < m
    ensures m % m == 0
  {
  }

  /** With num_steps 0 (or above 255) the comparison never holds: the cursor runs on through
      all 256 values of the uint8_t and never wraps at the program's end. */
  lemma CursorWithoutStepsRunsOn(cur: nat)
    requires cur < 256
    ensures NextStep(cur, 0) == (cur + 1) % 256
    ensures NextStep(cur, 256) == (cur + 1) % 256
  {
  }

  /** The pixels set_strip_intensity(color) sends: the colour on every LED IC. */
  function StripPixels(color: U32): (px: seq<U32>)
    ensures |px| == NUM_LEDS_IN_STRIP
    ensures forall i :: 0 <= i < |px| ==> px[i] == color
  {
    seq(NUM_LEDS_IN_STRIP, _ => color)
  }

  /** The pixels light_drawer(drawer, color) sends after clearing the strip. */
  function DrawerPixels(drawer: nat, color: U32): (px: seq<U32>)
    ensures |px| == NUM_LEDS_IN_STRIP
    ensures forall i :: 0 <= i < |px| ==> px[i] == color || px[i] == 0
  {
    seq(NUM_LEDS_IN_STRIP, i => if StartOffset(drawer) <= i < EndOffset(drawer) then color else 0)
  }

  /** light_drawer lights the six ICs [6d, 6d + 6) of the drawer and no other: its pixels are
      a cleared strip with SET_COLOR_DRAWER applied; a drawer number past the last lights none. */
  lemma DrawerPixelsLightOneDrawer(drawer: nat, color: U32)
    ensures |DrawerPixels(drawer, color)| == NUM_LEDS_IN_STRIP
    ensures forall i :: 0 <= i < NUM_LEDS_IN_STRIP ==>
      DrawerPixels(drawer, color)[i] == if 6 * drawer <= i < 6 * drawer + 6 then color else 0
    ensures drawer < MAX_DRAWERS ==>
      DrawerPixels(drawer, color) == Painted(StripPixels(0), StartOffset(drawer), EndOffset(drawer), color)
    ensures drawer >= MAX_DRAWERS ==> DrawerPixels(drawer, color) == StripPixels(0)
  {
    OffsetValues(drawer);
    if drawer < MAX_DRAWERS {
      var p := Painted(StripPixels(0), StartOffset(drawer), EndOffset(drawer), color);
      assert forall i :: 0 <= i < NUM_LEDS_IN_STRIP ==> DrawerPixels(drawer, color)[i] == p[i];
    } else {
      assert forall i :: 0 <= i < NUM_LEDS_IN_STRIP ==> DrawerPixels(drawer, color)[i] == StripPixels(0)[i];
    }
  }

  /** urgb_u32(r, g, b): green in bits 16-23, red in bits 8-15, blue in bits 0-7. */
  function Urgb(r: int, g: int, b: int): (c: int)
    requires 0 <= r < 256 && 0 <= g < 256 && 0 <= b < 256
    ensures 0 <= c < 0x100_0000
  {
    g * 0x1_0000 + r * 0x100 + b
  }

  /** The three channels can be read back from the packed value, so no two colours collide. */
  lemma UrgbChannels(r: int, g: int, b: int)
    requires 0 <= r < 256 && 0 <= g < 256 && 0 <= b < 256
    ensures 0 <= Urgb(r, g, b) < 0x100_0000
    ensures Urgb(r, g, b) / 0x1_0000 == g
    ensures Urgb(r, g, b) / 0x100 % 0x100 == r
    ensures Urgb(r, g, b) % 0x100 == b
  {
    var v := Urgb(r, g, b);
    assert v == (g * 0x100 + r) * 0x100 + b;
    assert v / 0x100 == g * 0x100 + r;
  }
}
