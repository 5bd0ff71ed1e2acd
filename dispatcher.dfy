/** process_message of LightFanTemp/serial_comms.c (the controller-board branch): what a
    received slot does to the two LED programs and which log text it forwards. */
module Dispatcher {
  import opened Protocol
  import opened LedHelpers
  import opened LedPrograms

  /** led_programs[2] with cur_prg and shadow_prg as indices into it. */
  datatype Programs = Programs(progs: seq<LedProgram>, cur: nat, shadow: nat)

  predicate ProgramsValid(p: Programs, maxSteps: nat)
  {
    |p.progs| == 2 && p.cur < 2 && p.shadow < 2 && forall i :: 0 <= i < 2 ==> WellFormed(p.progs[i], maxSteps)
  }

  /** What a message does besides changing the programs. `Undefined` stands for a command
      whose C code has undefined behaviour (an index past the end of an array, or the
      uninitialised `led` of the bulk commands); the model then leaves the programs alone. */
  datatype Effect = NoEffect | Logged(text: seq<Byte>) | Undefined

  datatype Outcome = Outcome(programs: Programs, effect: Effect)

  /** `cmd->cmd[k]`: the k-th payload byte of a slot. */
  function Cmd(slot: seq<Byte>, k: nat): Byte
    requires |slot| == CMD_LEN && k < MAX_PAYLOAD
  {
    slot[HEADER_LEN + k]
  }

  /** The colour SET_LED_COLOR stores, `cmd[1] << 16 | cmd[2] << 8 | cmd[3]`. */
  function LedColor(slot: seq<Byte>): (c: U32)
    requires |slot| == CMD_LEN
    ensures c < 0x100_0000
    ensures c / 0x1_0000 == Cmd(slot, 1) && c / 0x100 % 0x100 == Cmd(slot, 2) && c % 0x100 == Cmd(slot, 3)
  {
    UrgbChannels(Cmd(slot, 2), Cmd(slot, 1), Cmd(slot, 3));
    Cmd(slot, 1) as int * 0x1_0000 + Cmd(slot, 2) as int * 0x100 + Cmd(slot, 3) as int
  }

  /** The time SET_LED_TIME stores, `cmd[1] << 8 | cmd[2]`. */
  function LedTime(slot: seq<Byte>): (t: int)
    requires |slot| == CMD_LEN
    ensures 0 <= t < 0x1_0000 && t / 0x100 == Cmd(slot, 1) && t % 0x100 == Cmd(slot, 2)
  {
    Cmd(slot, 1) as int * 0x100 + Cmd(slot, 2) as int
  }

  /** The text `printf("%s", cmd)` prints: the bytes up to the first NUL. */
  function CString(s: seq<Byte>): (r: seq<Byte>)
    ensures |r| <= |s| && r == s[..|r|]
    ensures forall i :: 0 <= i < |r| ==> r[i] != 0
    ensures |r| < |s| ==> s[|r|] == 0
  {
    if s == [] || s[0] == 0 then [] else [s[0]] + CString(s[1..])
  }

  /** A NUL-terminated text reads back as itself, whatever follows the NUL. */
  lemma CStringTerminated(text: seq<Byte>, rest: seq<Byte>)
    requires forall i :: 0 <= i < |text| ==> text[i] != 0
    ensures CString(text + [0] + rest) == text
  {
    var s := text + [0] + rest;
    var r := CString(s);
    assert s[|text|] == 0;
  }

  /** `led_program_entry[step].leds[led] = color` on one program. */
  function SetLed(p: LedProgram, step: nat, led: nat, color: U32): LedProgram
    requires step < |p.steps| && led < |p.steps[step].leds|
  {
    p.(steps := p.steps[step := p.steps[step].(leds := p.steps[step].leds[led := color])])
  }

  /** `led_program_entry[step].time = time` on one program. */
  function SetTime(p: LedProgram, step: nat, time: int): LedProgram
    requires step < |p.steps|
  {
    p.(steps := p.steps[step := p.steps[step].(time := time)])
  }

  /** process_message as written, on a slot of CMD_LEN bytes. */
  function ProcessMessage(p: Programs, slot: seq<Byte>, maxSteps: nat): (o: Outcome)
    requires ProgramsValid(p, maxSteps) && |slot| == CMD_LEN
    ensures ProgramsValid(o.programs, maxSteps)
  {
    var cmdType := slot[2];
    if cmdType == SET_LED_COLOR then
      var step, led := Cmd(slot, 0), Cmd(slot, 1);
      if step < maxSteps && led < NUM_LEDS_IN_STRIP then
        Outcome(p.(progs := p.progs[p.shadow := SetLed(p.progs[p.shadow], step, led, LedColor(slot))]), NoEffect)
      else
        Outcome(p, Undefined)
    else if cmdType == SET_LED_TIME then
      var step := Cmd(slot, 0);
      if step < maxSteps then
        Outcome(p.(progs := p.progs[p.shadow := SetTime(p.progs[p.shadow], step, LedTime(slot))]), NoEffect)
      else
        Outcome(p, Undefined)
    else if cmdType == SET_LED_COLOR_BULK || cmdType == SET_LED_TIME_BULK then
      Outcome(p, Undefined)
    else if cmdType == SWITCH_PROGRAMS then
      // tmp = cur_prg; cur_prg = shadow_prg; shadow_prg = cur_prg;
      Outcome(p.(cur := p.shadow, shadow := p.shadow), NoEffect)
    else if cmdType == SEND_LOG then
      Outcome(p, Logged(CString(slot[HEADER_LEN..])))
    else
      Outcome(p, NoEffect)
  }

  /** SET_LED_COLOR with indices in range writes exactly one LED of one step of the shadow
      program: `leds[cmd[1]]` becomes `cmd[1] << 16 | cmd[2] << 8 | cmd[3]`, every other LED,
      the step's time, every other step and the other program stay as they were, and so the
      active program is untouched whenever it is not also the shadow. */
  lemma SetLedColorWritesShadowOnly(p: Programs, slot: seq<Byte>, maxSteps: nat)
    requires ProgramsValid(p, maxSteps) && |slot| == CMD_LEN && slot[2] == SET_LED_COLOR
    requires slot[4] < maxSteps && slot[5] < NUM_LEDS_IN_STRIP
    ensures var o := ProcessMessage(p, slot, maxSteps);
      var step, led, q, q' := slot[4], slot[5], p.progs[p.shadow], o.programs.progs[p.shadow];
      && o.effect == NoEffect
      && o.programs.cur == p.cur && o.programs.shadow == p.shadow
      && (p.cur != p.shadow ==> o.programs.progs[p.cur] == p.progs[p.cur])
      && q'.numSteps == q.numSteps && |q'.steps| == |q.steps|
      && (forall k :: 0 <= k < |q.steps| && k != step ==> q'.steps[k] == q.steps[k])
      && q'.steps[step].time == q.steps[step].time
      && q'.steps[step].leds[led] == slot[5] as int * 0x1_0000 + slot[6] as int * 0x100 + slot[7] as int
      && (forall j :: 0 <= j < NUM_LEDS_IN_STRIP && j != led ==> q'.steps[step].leds[j] == q.steps[step].leds[j])
  {
  }

  /** SET_LED_TIME with the step in range writes only that step's time in the shadow program:
      `cmd[1] << 8 | cmd[2]`. */
  lemma SetLedTimeWritesShadowOnly(p: Programs, slot: seq<Byte>, maxSteps: nat)
    requires ProgramsValid(p, maxSteps) && |slot| == CMD_LEN && slot[2] == SET_LED_TIME
    requires slot[4] < maxSteps
    ensures var o := ProcessMessage(p, slot, maxSteps);
      var step, q, q' := slot[4], p.progs[p.shadow], o.programs.progs[p.shadow];
      && o.effect == NoEffect
      && o.programs.cur == p.cur && o.programs.shadow == p.shadow
      && (p.cur != p.shadow ==> o.programs.progs[p.cur] == p.progs[p.cur])
      && q'.numSteps == q.numSteps && |q'.steps| == |q.steps|
      && (forall k :: 0 <= k < |q.steps| && k != step ==> q'.steps[k] == q.steps[k])
      && q'.steps[step].leds == q.steps[step].leds
      && q'.steps[step].time == slot[5] as int * 0x100 + slot[6] as int
  {
  }

  /** Commands process_message only logs (WIFI_*, MQTT_*, the fan and temperature codes and
      every unknown type) change neither program nor index, and neither does SEND_LOG. */
  lemma QuietCommandsChangeNothing(p: Programs, slot: seq<Byte>, maxSteps: nat)
    requires ProgramsValid(p, maxSteps) && |slot| == CMD_LEN
    requires slot[2] !in {SET_LED_COLOR, SET_LED_TIME, SET_LED_COLOR_BULK, SET_LED_TIME_BULK, SWITCH_PROGRAMS}
    ensures ProcessMessage(p, slot, maxSteps).programs == p
    ensures ProcessMessage(p, slot, maxSteps).effect == if slot[2] == SEND_LOG then Logged(CString(slot[HEADER_LEN..])) else NoEffect
  {
  }

  /** Only SET_LED_COLOR and SET_LED_TIME write program contents, and only into the shadow. */
  lemma OnlyShadowWritten(p: Programs, slot: seq<Byte>, maxSteps: nat)
    requires ProgramsValid(p, maxSteps) && |slot| == CMD_LEN
    ensures var o := ProcessMessage(p, slot, maxSteps);
      forall i :: 0 <= i < 2 && i != p.shadow ==> o.programs.progs[i] == p.progs[i]
    ensures slot[2] != SET_LED_COLOR && slot[2] != SET_LED_TIME ==>
      ProcessMessage(p, slot, maxSteps).programs.progs == p.progs
  {
  }

  /** As written, SWITCH_PROGRAMS points both cur_prg and shadow_prg at the old shadow program:
      the program that was active is referenced by neither afterwards. */
  lemma SwitchCollapses(p: Programs, slot: seq<Byte>, maxSteps: nat)
    requires ProgramsValid(p, maxSteps) && |slot| == CMD_LEN && slot[2] == SWITCH_PROGRAMS
    ensures var o := ProcessMessage(p, slot, maxSteps);
      && o.programs.cur == o.programs.shadow == p.shadow
      && o.programs.progs == p.progs
      && (p.cur != p.shadow ==> o.programs.cur != p.cur && o.programs.shadow != p.cur)
  {
  }

  /** The exchange the temporary in SWITCH_PROGRAMS was evidently meant for:
      `tmp = cur_prg; cur_prg = shadow_prg; shadow_prg = tmp;`. */
  function SwitchExchange(p: Programs): (q: Programs)
    ensures q.progs == p.progs && multiset{q.cur, q.shadow} == multiset{p.cur, p.shadow}
  {
    p.(cur := p.shadow, shadow := p.cur)
  }

  /** The exchange makes the old shadow active and the old active program the new shadow, so
      two distinct indices stay distinct, and switching twice restores the original. */
  lemma SwitchExchangeSwaps(p: Programs, maxSteps: nat)
    requires ProgramsValid(p, maxSteps)
    ensures ProgramsValid(SwitchExchange(p), maxSteps)
    ensures SwitchExchange(p).cur == p.shadow && SwitchExchange(p).shadow == p.cur
    ensures SwitchExchange(p).progs == p.progs
    ensures p.cur != p.shadow ==> SwitchExchange(p).cur != SwitchExchange(p).shadow
    ensures SwitchExchange(SwitchExchange(p)) == p
  {
  }

  /** SEND_LOG forwards the payload up to its first NUL. */
  lemma SendLogForwardsText(p: Programs, slot: seq<Byte>, maxSteps: nat)
    requires ProgramsValid(p, maxSteps) && |slot| == CMD_LEN && slot[2] == SEND_LOG
    ensures var o := ProcessMessage(p, slot, maxSteps);
      && o.programs == p
      && o.effect.Logged?
      && o.effect.text == slot[HEADER_LEN..HEADER_LEN + |o.effect.text|]
      && (forall i :: 0 <= i < |o.effect.text| ==> o.effect.text[i] != 0)
      && (HEADER_LEN + |o.effect.text| < CMD_LEN ==> slot[HEADER_LEN + |o.effect.text|] == 0)
  {
  }
}
