/** The fan logic of LightFanTemp/main.cpp: the global `fans` struct, set_fan_pwm, the
    temperature curve walked by set_fan_speeds, the tacho counter of fanspeed_callback and the
    speed computation of core1_entry. pwm_set_gpio_level is recorded as a `Level` event. */
module Fans {
  import opened Protocol

  /** A `uint16_t`. */
  type U16 = x: int | 0 <= x < 0x1_0000

  datatype Option<T> = None | Some(value: T)

  /** Every initialiser of `fans` and `temperatures` and the tacho switch list seven fans. */
  const NUM_FANS: nat := 7
  const PWM_LOW_THRESHOLD: Byte := 20
  const INVALID_TEMPERATURE: int := 0x0bad
  const INVALID_SPEED: U16 := 0xbeef
  const PWM_CURVE_INVALID: int := 0xdead

  /** One row of temp_vs_pwm_curve: temperatures in (lo, hi], in hundredths of a degree, get
      `duty` percent. */
  datatype Row = Row(lo: int, hi: int, duty: Byte)

  const CURVE: seq<Row> := [
    Row(0, 2400, 20), Row(2400, 2600, 30), Row(2600, 2800, 40), Row(2800, 3000, 50),
    Row(3000, 3100, 60), Row(3100, 3200, 70), Row(3200, 3300, 80), Row(3300, 3400, 90),
    Row(3400, 10000, 100), Row(PWM_CURVE_INVALID, PWM_CURVE_INVALID, 0xad)]

  /** Rows before the PWM_CURVE_INVALID terminator (whose duty, 0xdead, reads as 0xad in a
      byte; it is never used). */
  const CURVE_ROWS: nat := 9

  predicate RowMatches(r: Row, t: int)
  {
    r.lo < t <= r.hi
  }

  /** The terminator is the first row whose lower bound is PWM_CURVE_INVALID. */
  lemma CurveTerminated()
    ensures |CURVE| == CURVE_ROWS + 1 && CURVE[CURVE_ROWS].lo == PWM_CURVE_INVALID
    ensures forall k :: 0 <= k < CURVE_ROWS ==> CURVE[k].lo != PWM_CURVE_INVALID
  {
  }

  /** The duty of the last row among the first `k` that matches `t`. */
  function MatchBelow(t: int, k: nat): (d: Option<Byte>)
    requires k <= CURVE_ROWS
    ensures d.Some? ==> PWM_LOW_THRESHOLD <= d.value <= 100
  {
    if k == 0 then None
    else if RowMatches(CURVE[k - 1], t) then Some(CURVE[k - 1].duty)
    else MatchBelow(t, k - 1)
  }

  /** The duty set_fan_speeds settles on for temperature `t`, if any row matches. */
  function Lookup(t: int): (d: Option<Byte>)
    ensures d.Some? ==> PWM_LOW_THRESHOLD <= d.value <= 100
  {
    MatchBelow(t, CURVE_ROWS)
  }

  /** The rows are contiguous: each starts where the one before ends, so the first `k` rows
      together cover exactly (0, hi of row k - 1]. */
  lemma {:induction false} MatchBelowCovers(t: int, k: nat)
    requires 0 < k <= CURVE_ROWS
    ensures MatchBelow(t, k).Some? <==> 0 < t <= CURVE[k - 1].hi
    ensures MatchBelow(t, k).Some? ==> PWM_LOW_THRESHOLD <= MatchBelow(t, k).value <= 100
  {
    if k > 1 {
      MatchBelowCovers(t, k - 1);
      assert CURVE[k - 2].hi == CURVE[k - 1].lo;
    }
  }

  /** A row's lower bound is at least every earlier row's upper bound. */
  lemma {:induction false} RowsIncrease(i: nat, j: nat)
    requires i < j < CURVE_ROWS
    ensures CURVE[i].hi <= CURVE[j].lo
  {
    if i + 1 < j {
      RowsIncrease(i, j - 1);
    }
  }

  /** At most one row matches any temperature. */
  lemma RowsDisjoint(t: int, i: nat, j: nat)
    requires i < CURVE_ROWS && j < CURVE_ROWS
    requires RowMatches(CURVE[i], t) && RowMatches(CURVE[j], t)
    ensures i == j
  {
    if i < j { RowsIncrease(i, j); }
    if j < i { RowsIncrease(j, i); }
  }

  /** A temperature gets a duty exactly when it lies in (0, 10000]; the duty is then the one
      row that matches, between 20 and 100 percent. */
  lemma LookupSpec(t: int)
    ensures Lookup(t).Some? <==> 0 < t <= 10000
    ensures Lookup(t).Some? ==> PWM_LOW_THRESHOLD <= Lookup(t).value <= 100
    ensures forall i :: 0 <= i < CURVE_ROWS && RowMatches(CURVE[i], t) ==> Lookup(t) == Some(CURVE[i].duty)
  {
    MatchBelowCovers(t, CURVE_ROWS);
    forall i | 0 <= i < CURVE_ROWS && RowMatches(CURVE[i], t)
      ensures Lookup(t) == Some(CURVE[i].duty)
    {
      MatchAt(t, i, CURVE_ROWS);
    }
  }

  lemma {:induction false} MatchAt(t: int, i: nat, k: nat)
    requires i < k <= CURVE_ROWS && RowMatches(CURVE[i], t)
    ensures MatchBelow(t, k) == Some(CURVE[i].duty)
  {
    if i < k - 1 {
      if RowMatches(CURVE[k - 1], t) {
        RowsDisjoint(t, i, k - 1);
      }
      MatchAt(t, i, k - 1);
    }
  }

  /** The boundaries of the curve fall on the closed upper end of each row. */
  lemma CurveBoundaries()
    ensures Lookup(2400) == Some(20) && Lookup(2401) == Some(30) && Lookup(2600) == Some(30)
    ensures Lookup(10000) == Some(100) && Lookup(10001) == None && Lookup(0) == None
  {
    LookupSpec(2400);
    LookupSpec(2401);
    LookupSpec(2600);
    LookupSpec(10000);
    LookupSpec(10001);
    LookupSpec(0);
    assert RowMatches(CURVE[0], 2400) && RowMatches(CURVE[1], 2401) && RowMatches(CURVE[1], 2600);
    assert RowMatches(CURVE[8], 10000);
  }

  /** As written, the INVALID_TEMPERATURE marker of a missing sensor is an ordinary
      temperature to the curve: 29.89 degrees, 50 percent. */
  lemma SentinelDrivesFan()
    ensures Lookup(INVALID_TEMPERATURE) == Some(50)
  {
    LookupSpec(INVALID_TEMPERATURE);
    assert RowMatches(CURVE[3], INVALID_TEMPERATURE);
  }

  /** The curve with the sentinel excluded, as a missing sensor evidently should be. */
  function LookupValid(t: int): (d: Option<Byte>)
    ensures d.Some? ==> t != INVALID_TEMPERATURE && d == Lookup(t)
  {
    if t == INVALID_TEMPERATURE then None else Lookup(t)
  }

  /** A missing sensor leaves its fan alone; every real temperature maps as before. */
  lemma LookupValidSkipsSentinel(t: int)
    ensures LookupValid(INVALID_TEMPERATURE) == None
    ensures t != INVALID_TEMPERATURE ==> LookupValid(t) == Lookup(t)
    ensures LookupValid(t).Some? <==> 0 < t <= 10000 && t != INVALID_TEMPERATURE
  {
    LookupSpec(t);
  }

  /** A pwm_set_gpio_level call: the pin and the duty in percent (the float conversion to a
      counter level is not modelled). */
  datatype Level = Level(pin: Byte, percent: Byte)

  /** `struct fans`, plus the pwm_set_gpio_level calls made so far. */
  datatype Bank = Bank(auto: seq<bool>, speed: seq<U16>, count: seq<U16>, pwm: seq<Byte>,
                       pins: seq<Byte>, levels: seq<Level>)

  predicate BankValid(b: Bank)
  {
    |b.auto| == NUM_FANS && |b.speed| == NUM_FANS && |b.count| == NUM_FANS
    && |b.pwm| == NUM_FANS && |b.pins| == NUM_FANS
  }

  /** set_fan_pwm(fan, pwm). */
  function SetFanPwm(b: Bank, fan: nat, p: Byte): (r: Bank)
    requires BankValid(b) && fan < NUM_FANS
    ensures BankValid(r)
  {
    if p > 100 then b.(auto := b.auto[fan := true])
    else
      var q := if p < PWM_LOW_THRESHOLD then PWM_LOW_THRESHOLD else p;
      b.(auto := b.auto[fan := false], pwm := b.pwm[fan := q], levels := b.levels + [Level(b.pins[fan], q)])
  }

  /** Above 100 percent the fan goes back to automatic and keeps its stored duty; otherwise it
      becomes manual with the duty raised to at least 20 percent, so the stored duty is in
      [20, 100], and the new duty is applied to its pin. No other fan changes. */
  lemma SetFanPwmSpec(b: Bank, fan: nat, p: Byte)
    requires BankValid(b) && fan < NUM_FANS
    ensures var r := SetFanPwm(b, fan, p);
      && r.speed == b.speed && r.count == b.count && r.pins == b.pins
      && (forall j :: 0 <= j < NUM_FANS && j != fan ==> r.auto[j] == b.auto[j] && r.pwm[j] == b.pwm[j])
      && (p > 100 ==> r.auto[fan] && r.pwm == b.pwm && r.levels == b.levels)
      && (p <= 100 ==>
           && !r.auto[fan]
           && r.pwm[fan] == (if p < PWM_LOW_THRESHOLD then PWM_LOW_THRESHOLD else p)
           && PWM_LOW_THRESHOLD <= r.pwm[fan] <= 100
           && r.levels == b.levels + [Level(b.pins[fan], r.pwm[fan])])
  {
  }

  /** The inner loop of set_fan_speeds after `k` rows: set_fan_pwm for every matching row. */
  function ApplyRows(b: Bank, fan: nat, t: int, k: nat): (r: Bank)
    requires BankValid(b) && fan < NUM_FANS && k <= CURVE_ROWS
    ensures BankValid(r)
  {
    if k == 0 then b
    else
      var prev := ApplyRows(b, fan, t, k - 1);
      if RowMatches(CURVE[k - 1], t) then SetFanPwm(prev, fan, CURVE[k - 1].duty) else prev
  }

  /** Since at most one row matches, walking the rows is one set_fan_pwm with the looked-up
      duty, or nothing. */
  lemma {:induction false} ApplyRowsLookup(b: Bank, fan: nat, t: int, k: nat)
    requires BankValid(b) && fan < NUM_FANS && k <= CURVE_ROWS
    ensures ApplyRows(b, fan, t, k) == match MatchBelow(t, k) { case None => b case Some(d) => SetFanPwm(b, fan, d) }
  {
    if k > 0 {
      ApplyRowsLookup(b, fan, t, k - 1);
      if RowMatches(CURVE[k - 1], t) {
        NoEarlierMatch(t, k - 1, k - 1);
      }
    }
  }

  lemma {:induction false} NoEarlierMatch(t: int, i: nat, k: nat)
    requires k <= i < CURVE_ROWS && RowMatches(CURVE[i], t)
    ensures MatchBelow(t, k) == None
  {
    if k > 0 {
      if RowMatches(CURVE[k - 1], t) {
        RowsDisjoint(t, k - 1, i);
      }
      NoEarlierMatch(t, i, k - 1);
    }
  }

  /** The body of set_fan_speeds for one fan with temperature `t`. */
  function FanStep(b: Bank, fan: nat, t: int): (r: Bank)
    requires BankValid(b) && fan < NUM_FANS
    ensures BankValid(r)
  {
    if b.auto[fan] then ApplyRows(b, fan, t, CURVE_ROWS) else SetFanPwm(b, fan, b.pwm[fan])
  }

  /** An automatic fan whose temperature is off the curve is left alone, one on the curve
      becomes manual at the row's duty; a manual fan is re-applied at its stored duty, which
      changes nothing in `fans` when that duty is already in [20, 100]. */
  lemma FanStepSpec(b: Bank, fan: nat, t: int)
    requires BankValid(b) && fan < NUM_FANS
    ensures var r := FanStep(b, fan, t);
      && (b.auto[fan] && Lookup(t) == None ==> r == b)
      && (b.auto[fan] && Lookup(t).Some? ==> !r.auto[fan] && r.pwm[fan] == Lookup(t).value)
      && (!b.auto[fan] && PWM_LOW_THRESHOLD <= b.pwm[fan] <= 100 ==>
           r.(levels := b.levels) == b && r.levels == b.levels + [Level(b.pins[fan], b.pwm[fan])])
      && (forall j :: 0 <= j < NUM_FANS && j != fan ==> r.auto[j] == b.auto[j] && r.pwm[j] == b.pwm[j])
      && r.speed == b.speed && r.count == b.count && r.pins == b.pins
  {
    ApplyRowsLookup(b, fan, t, CURVE_ROWS);
    LookupSpec(t);
    if b.auto[fan] && Lookup(t).Some? {
      SetFanPwmSpec(b, fan, Lookup(t).value);
    }
    if !b.auto[fan] && PWM_LOW_THRESHOLD <= b.pwm[fan] <= 100 {
      assert b.pwm[fan := b.pwm[fan]] == b.pwm;
      assert b.auto[fan := false] == b.auto;
    }
  }

  /** set_fan_speeds after the first `n` fans. */
  function FanSpeeds(b: Bank, temps: seq<int>, n: nat): (r: Bank)
    requires BankValid(b) && n <= NUM_FANS <= |temps|
    ensures BankValid(r)
  {
    if n == 0 then b else FanStep(FanSpeeds(b, temps, n - 1), n - 1, temps[n - 1])
  }

  /** Each fan is driven by its own temperature alone: after the whole pass, fan i's mode and
      duty are what FanStep gives for fan i from the starting state. */
  lemma {:induction false} FanSpeedsPerFan(b: Bank, temps: seq<int>, n: nat, i: nat)
    requires BankValid(b) && n <= NUM_FANS <= |temps| && i < NUM_FANS
    ensures var r := FanSpeeds(b, temps, n);
      if i < n then r.auto[i] == FanStep(b, i, temps[i]).auto[i] && r.pwm[i] == FanStep(b, i, temps[i]).pwm[i]
      else r.auto[i] == b.auto[i] && r.pwm[i] == b.pwm[i]
  {
    if n > 0 {
      var prev := FanSpeeds(b, temps, n - 1);
      FanSpeedsPerFan(b, temps, n - 1, i);
      FanStepSpec(prev, n - 1, temps[n - 1]);
      if i == n - 1 {
        FanStepSameFan(b, prev, i, temps[i]);
      }
    }
  }

  /** FanStep on fan i reads only fan i's mode, duty and pin. */
  lemma FanStepSameFan(b: Bank, c: Bank, i: nat, t: int)
    requires BankValid(b) && BankValid(c) && i < NUM_FANS
    requires c.auto[i] == b.auto[i] && c.pwm[i] == b.pwm[i]
    ensures FanStep(c, i, t).auto[i] == FanStep(b, i, t).auto[i]
    ensures FanStep(c, i, t).pwm[i] == FanStep(b, i, t).pwm[i]
  {
    ApplyRowsLookup(b, i, t, CURVE_ROWS);
    ApplyRowsLookup(c, i, t, CURVE_ROWS);
  }

  /** As written, set_fan_pwm clears auto_speed, so an automatic fan follows the curve only
      once: after the first pass that finds its temperature on the curve it keeps that duty
      whatever later temperatures are. */
  lemma AutoFanLatchesManual(b: Bank, temps: seq<int>, later: seq<int>, i: nat)
    requires BankValid(b) && NUM_FANS <= |temps| && NUM_FANS <= |later| && i < NUM_FANS
    requires b.auto[i] && Lookup(temps[i]).Some?
    ensures var b1 := FanSpeeds(b, temps, NUM_FANS);
      && !b1.auto[i] && b1.pwm[i] == Lookup(temps[i]).value
      && !FanSpeeds(b1, later, NUM_FANS).auto[i]
      && FanSpeeds(b1, later, NUM_FANS).pwm[i] == Lookup(temps[i]).value
  {
    var b1 := FanSpeeds(b, temps, NUM_FANS);
    FanSpeedsPerFan(b, temps, NUM_FANS, i);
    FanStepSpec(b, i, temps[i]);
    FanSpeedsPerFan(b1, later, NUM_FANS, i);
    LookupSpec(temps[i]);
    FanStepSpec(b1, i, later[i]);
  }

  /** The same fan heating from 25 to 35 degrees stays at 30 percent instead of 100. */
  lemma LatchExample(b: Bank, i: nat)
    requires BankValid(b) && i < NUM_FANS && b.auto[i]
    ensures var hot := seq(NUM_FANS, _ => 3500);
      FanSpeeds(FanSpeeds(b, seq(NUM_FANS, _ => 2500), NUM_FANS), hot, NUM_FANS).pwm[i] == 30
    ensures Lookup(3500) == Some(100)
  {
    LookupSpec(2500);
    LookupSpec(3500);
    assert RowMatches(CURVE[1], 2500) && RowMatches(CURVE[8], 3500);
    AutoFanLatchesManual(b, seq(NUM_FANS, _ => 2500), seq(NUM_FANS, _ => 3500), i);
  }

  /** The evidently intended step: an automatic fan stays automatic and takes the duty of the
      curve, skipping a missing sensor; a manual fan is re-applied as before. */
  function FanStepAuto(b: Bank, fan: nat, t: int): (r: Bank)
    requires BankValid(b) && fan < NUM_FANS
    ensures BankValid(r)
  {
    if b.auto[fan] then
      match LookupValid(t)
      case None => b
      case Some(d) => b.(pwm := b.pwm[fan := d], levels := b.levels + [Level(b.pins[fan], d)])
    else SetFanPwm(b, fan, b.pwm[fan])
  }

  /** With the intended step an automatic fan stays automatic and always runs at the duty of
      its latest valid temperature. */
  lemma FanStepAutoFollows(b: Bank, fan: nat, t1: int, t2: int)
    requires BankValid(b) && fan < NUM_FANS && b.auto[fan]
    ensures FanStepAuto(b, fan, t1).auto[fan]
    ensures LookupValid(t2).Some? ==> FanStepAuto(FanStepAuto(b, fan, t1), fan, t2).pwm[fan] == LookupValid(t2).value
    ensures LookupValid(t1).Some? ==> PWM_LOW_THRESHOLD <= FanStepAuto(b, fan, t1).pwm[fan] <= 100
    ensures forall j :: 0 <= j < NUM_FANS && j != fan ==>
      FanStepAuto(b, fan, t1).auto[j] == b.auto[j] && FanStepAuto(b, fan, t1).pwm[j] == b.pwm[j]
  {
    LookupValidSkipsSentinel(t1);
    LookupSpec(t1);
  }

  /** The `fans` initialiser as written: its lists land in field order, so fan_count gets the
      PWM_LOW_THRESHOLD list, pwm gets the pin list and pins start at zero until setup_pwm
      links them (SetupPwm). */
  function InitialAsWritten(pwmPins: seq<Byte>): (b: Bank)
    requires |pwmPins| == NUM_FANS
    ensures BankValid(b)
  {
    Bank(seq(NUM_FANS, _ => true), seq(NUM_FANS, _ => INVALID_SPEED), seq(NUM_FANS, _ => PWM_LOW_THRESHOLD as U16),
         pwmPins, seq(NUM_FANS, _ => 0), [])
  }

  /** The initialiser evidently intended: no pulses counted, the 20 percent floor as duty and
      the PWM pins in `pins`. */
  function InitialIntended(pwmPins: seq<Byte>): (b: Bank)
    requires |pwmPins| == NUM_FANS
    ensures BankValid(b)
  {
    Bank(seq(NUM_FANS, _ => true), seq(NUM_FANS, _ => INVALID_SPEED), seq(NUM_FANS, _ => 0),
         seq(NUM_FANS, _ => PWM_LOW_THRESHOLD), pwmPins, [])
  }

  /** core1_entry's speed loop: speed[i] = fan_count[i] * 6 as a uint16_t, then fan_count[i] = 0. */
  function Measure(b: Bank): (r: Bank)
    requires BankValid(b)
    ensures BankValid(r)
  {
    b.(speed := seq(NUM_FANS, i requires 0 <= i < NUM_FANS => (b.count[i] as int * 6) % 0x1_0000),
       count := seq(NUM_FANS, _ => 0))
  }

  /** A measurement reports six times the pulses counted (two pulses per revolution over a
      5 s window), modulo 2^16, and starts the next window from zero; nothing else changes. */
  lemma MeasureSpec(b: Bank)
    requires BankValid(b)
    ensures var r := Measure(b);
      && (forall i :: 0 <= i < NUM_FANS ==> r.speed[i] == (6 * b.count[i] as int) % 0x1_0000 && r.count[i] == 0)
      && (forall i :: 0 <= i < NUM_FANS && b.count[i] < 10923 ==> r.speed[i] == 6 * b.count[i])
      && r.auto == b.auto && r.pwm == b.pwm && r.pins == b.pins && r.levels == b.levels
  {
  }

  /** As written, the first measurement reports 120 rpm for a fan that never turned, and the
      stored duty of every fan is its pin number. */
  lemma InitialiserMisplaced(pwmPins: seq<Byte>)
    requires |pwmPins| == NUM_FANS
    ensures forall i :: 0 <= i < NUM_FANS ==> Measure(InitialAsWritten(pwmPins)).speed[i] == 120
    ensures InitialAsWritten(pwmPins).pwm == pwmPins
    ensures InitialAsWritten(pwmPins).pins == seq(NUM_FANS, _ => 0)
  {
  }

  /** With the intended initialiser a fan that never turned reads 0 rpm, every stored duty is
      the 20 percent floor and the pins are the PWM pins. */
  lemma InitialIntendedSound(pwmPins: seq<Byte>)
    requires |pwmPins| == NUM_FANS
    ensures forall i :: 0 <= i < NUM_FANS ==> Measure(InitialIntended(pwmPins)).speed[i] == 0
    ensures forall i :: 0 <= i < NUM_FANS ==> PWM_LOW_THRESHOLD <= InitialIntended(pwmPins).pwm[i] <= 100
    ensures InitialIntended(pwmPins).pins == pwmPins
  {
  }

  /** The duty setup_pwm starts every pin at: 0.5 * (PWM_TOP + 1) is half the period. */
  const SETUP_DUTY: Byte := 50

  /** setup_pwm: every fan is linked to its PWM pin, then each pin is started at half duty. */
  function SetupPwm(b: Bank, pwmPins: seq<Byte>): (r: Bank)
    requires BankValid(b) && |pwmPins| == NUM_FANS
    ensures BankValid(r) && r.pins == pwmPins
    ensures r.(pins := b.pins, levels := b.levels) == b
    ensures |r.levels| == |b.levels| + NUM_FANS
    ensures forall k :: 0 <= k < NUM_FANS ==> r.levels[|b.levels| + k] == Level(pwmPins[k], SETUP_DUTY)
  {
    b.(pins := pwmPins,
       levels := b.levels + seq(NUM_FANS, k requires 0 <= k < NUM_FANS => Level(pwmPins[k], SETUP_DUTY)))
  }

  /** Every pwm_set_gpio_level call so far drove one of `pins`. */
  ghost predicate LevelsOnPins(levels: seq<Level>, pins: seq<Byte>)
  {
    forall i :: 0 <= i < |levels| ==> levels[i].pin in pins
  }

  /** One fan's step of set_fan_speeds drives only that fan's pin. */
  lemma FanStepLevelsOnPins(b: Bank, fan: nat, t: int)
    requires BankValid(b) && fan < NUM_FANS && LevelsOnPins(b.levels, b.pins)
    ensures FanStep(b, fan, t).pins == b.pins && LevelsOnPins(FanStep(b, fan, t).levels, b.pins)
  {
    ApplyRowsLookup(b, fan, t, CURVE_ROWS);
    if b.auto[fan] {
      if MatchBelow(t, CURVE_ROWS).Some? {
        SetFanPwmSpec(b, fan, MatchBelow(t, CURVE_ROWS).value);
      }
    } else {
      SetFanPwmSpec(b, fan, b.pwm[fan]);
    }
  }

  /** A pass of set_fan_speeds keeps `pins` and drives only pins listed there. */
  lemma {:induction false} FanSpeedsLevelsOnPins(b: Bank, temps: seq<int>, n: nat)
    requires BankValid(b) && n <= NUM_FANS <= |temps| && LevelsOnPins(b.levels, b.pins)
    ensures FanSpeeds(b, temps, n).pins == b.pins && LevelsOnPins(FanSpeeds(b, temps, n).levels, b.pins)
  {
    if n > 0 {
      FanSpeedsLevelsOnPins(b, temps, n - 1);
      FanStepLevelsOnPins(FanSpeeds(b, temps, n - 1), n - 1, temps[n - 1]);
    }
  }

  /** main() runs setup_pwm before the first fan timer fires, so from then on the pins are the
      PWM pins and set_fan_speeds drives nothing else; only the count and the duty lists of
      the initialiser stay misplaced. */
  lemma SetupLinksPins(pwmPins: seq<Byte>, temps: seq<int>)
    requires |pwmPins| == NUM_FANS <= |temps|
    ensures var b := SetupPwm(InitialAsWritten(pwmPins), pwmPins);
      && b.pins == pwmPins && LevelsOnPins(b.levels, pwmPins)
      && FanSpeeds(b, temps, NUM_FANS).pins == pwmPins
      && LevelsOnPins(FanSpeeds(b, temps, NUM_FANS).levels, pwmPins)
  {
    var b := SetupPwm(InitialAsWritten(pwmPins), pwmPins);
    assert forall i :: 0 <= i < |b.levels| ==> b.levels[i] == Level(pwmPins[i], SETUP_DUTY);
    FanSpeedsLevelsOnPins(b, temps, NUM_FANS);
  }

  /** What a repeating-timer callback hands back to the SDK: a value, or nothing when the
      function flows off its end, which C++ leaves undefined for a function returning bool. */
  datatype Returned = Returns(repeat: bool) | FallsOffEnd

  /** set_fan_speeds as written has no `return` statement. */
  const SET_FAN_SPEEDS_RETURNS: Returned := FallsOffEnd

  /** The evidently intended `return true;`. */
  const SET_FAN_SPEEDS_RETURNS_INTENDED: Returned := Returns(true)

  /** How many times a repeating timer whose callback hands back `r` has called it after `n`
      periods: the first call always happens, a callback returning false is not called again,
      and after a call without a return value the count is undetermined (None). */
  function TimerCalls(r: Returned, n: nat): (c: Option<nat>)
    ensures c.Some? ==> c.value <= n
    ensures n <= 1 ==> c == Some(n)
  {
    if n <= 1 then Some(n)
    else match r
      case FallsOffEnd => None
      case Returns(false) => Some(1)
      case Returns(true) =>
        match TimerCalls(r, n - 1)
        case None => None
        case Some(k) => Some(k + 1)
  }

  /** As written, whether the curve is applied a second time is undetermined. */
  lemma FallsOffEndUndetermined(n: nat)
    requires 2 <= n
    ensures TimerCalls(SET_FAN_SPEEDS_RETURNS, n) == None
  {
  }

  /** With `return true;` the curve is applied once every period. */
  lemma {:induction false} RepeatingTimerEveryPeriod(n: nat)
    ensures TimerCalls(SET_FAN_SPEEDS_RETURNS_INTENDED, n) == Some(n)
  {
    if n > 1 {
      RepeatingTimerEveryPeriod(n - 1);
    }
  }

  /** Only a callback returning true is called in every period. */
  lemma {:induction false} EveryPeriodOnlyIfTrue(r: Returned, n: nat)
    requires 2 <= n
    ensures TimerCalls(r, n) == Some(n) <==> r == Returns(true)
  {
    if r == Returns(true) {
      RepeatingTimerEveryPeriod(n);
    }
  }

  /** The case of the `switch (gpio)` in fanspeed_callback that `gpio` selects. */
  function TachoIndex(tacho: seq<int>, gpio: int): (k: Option<nat>)
    ensures k.Some? ==> k.value < |tacho| && tacho[k.value] == gpio
    ensures k.None? ==> gpio !in tacho
  {
    if tacho == [] then None
    else if tacho[0] == gpio then Some(0)
    else match TachoIndex(tacho[1..], gpio)
      case None => None
      case Some(k) => Some(k + 1)
  }

  /** fanspeed_callback(gpio) on the counters. */
  function Tick(b: Bank, tacho: seq<int>, gpio: int): (r: Bank)
    requires BankValid(b) && |tacho| == NUM_FANS
    ensures BankValid(r)
  {
    match TachoIndex(tacho, gpio)
    case None => b
    case Some(k) => b.(count := b.count[k := (b.count[k] as int + 1) % 0x1_0000])
  }

  /** With the seven distinct tacho pins of the switch, a pulse on fan k's pin counts one for
      fan k (modulo 2^16) and for no other, and a pulse on any other pin is ignored. */
  lemma TickSpec(b: Bank, tacho: seq<int>, gpio: int)
    requires BankValid(b) && |tacho| == NUM_FANS
    requires forall i, j :: 0 <= i < j < NUM_FANS ==> tacho[i] != tacho[j]
    ensures var r := Tick(b, tacho, gpio);
      && (forall k :: 0 <= k < NUM_FANS ==>
            r.count[k] == if tacho[k] == gpio then (b.count[k] as int + 1) % 0x1_0000 else b.count[k])
      && r.(count := b.count) == b
  {
  }
}
