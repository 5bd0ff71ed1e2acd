/** The global `fans` struct of LightFanTemp/main.cpp as an object, with the functions that
    update it in place: set_fan_pwm, set_fan_speeds, fanspeed_callback and the speed loop of
    core1_entry. Each is proved to compute the corresponding function of module Fans. */
module FanControl {
  import opened Protocol
  import opened Fans

  class FanBank {
    const autoSpeed: array<bool>   // fans.auto_speed
    const speed: array<U16>        // fans.speed
    const fanCount: array<U16>     // fans.fan_count
    const pwm: array<Byte>         // fans.pwm
    const pins: array<Byte>        // fans.pins
    const tachoPins: seq<int>      // PIN_TACHO_0 .. PIN_TACHO_6
    var levels: seq<Level>         // every pwm_set_gpio_level call so far

    ghost function Bank(): Fans.Bank
      reads this, autoSpeed, speed, fanCount, pwm, pins
    {
      Fans.Bank(autoSpeed[..], speed[..], fanCount[..], pwm[..], pins[..], levels)
    }

    ghost predicate Valid()
      reads this, autoSpeed, speed, fanCount, pwm, pins
    {
      && autoSpeed.Length == NUM_FANS && speed.Length == NUM_FANS && fanCount.Length == NUM_FANS
      && pwm.Length == NUM_FANS && pins.Length == NUM_FANS
      && speed != fanCount && pwm != pins
      && |tachoPins| == NUM_FANS
      && (forall i, j :: 0 <= i < j < NUM_FANS ==> tachoPins[i] != tachoPins[j])
    }

    /** The static initialiser of `fans`, as written: `pins` is zero until SetupPwm. */
    constructor (pwmPins: seq<Byte>, tacho: seq<int>)
      requires |pwmPins| == NUM_FANS && |tacho| == NUM_FANS
      requires forall i, j :: 0 <= i < j < NUM_FANS ==> tacho[i] != tacho[j]
      ensures Valid() && Bank() == InitialAsWritten(pwmPins) && tachoPins == tacho
      ensures fresh(autoSpeed) && fresh(speed) && fresh(fanCount) && fresh(pwm) && fresh(pins)
    {
      autoSpeed := new bool[NUM_FANS](_ => true);
      speed := new U16[NUM_FANS](_ => INVALID_SPEED);
      fanCount := new U16[NUM_FANS](_ => PWM_LOW_THRESHOLD as U16);
      pwm := new Byte[NUM_FANS](i requires 0 <= i < NUM_FANS => pwmPins[i]);
      pins := new Byte[NUM_FANS](_ => 0);
      tachoPins := tacho;
      levels := [];
      new;
      assert pwm[..] == pwmPins;
    }

    /** setup_pwm: links fan k to PWM pin k, then starts each pin at half duty. */
    method SetupPwm(pwmPins: seq<Byte>)
      requires Valid() && |pwmPins| == NUM_FANS
      modifies pins, this`levels
      ensures Valid() && Bank() == Fans.SetupPwm(old(Bank()), pwmPins)
    {
      pins[0] := pwmPins[0];
      pins[1] := pwmPins[1];
      pins[2] := pwmPins[2];
      pins[3] := pwmPins[3];
      pins[4] := pwmPins[4];
      pins[5] := pwmPins[5];
      pins[6] := pwmPins[6];
      levels := levels + [Level(pwmPins[0], SETUP_DUTY), Level(pwmPins[1], SETUP_DUTY),
                          Level(pwmPins[2], SETUP_DUTY), Level(pwmPins[3], SETUP_DUTY),
                          Level(pwmPins[4], SETUP_DUTY), Level(pwmPins[5], SETUP_DUTY),
                          Level(pwmPins[6], SETUP_DUTY)];
      assert pins[..] == pwmPins;
    }

    /** set_fan_pwm(fan, pwm). */
    method SetFanPwm(fan: nat, p: Byte)
      requires Valid() && fan < NUM_FANS
      modifies autoSpeed, pwm, this`levels
      ensures Valid() && Bank() == Fans.SetFanPwm(old(Bank()), fan, p)
    {
      if p > 100 {
        autoSpeed[fan] := true;
      } else {
        autoSpeed[fan] := false;
        var q := p;
        if q < PWM_LOW_THRESHOLD {
          q := PWM_LOW_THRESHOLD;
        }
        pwm[fan] := q;
        levels := levels + [Level(pins[fan], q)];
      }
    }

    /** set_fan_speeds: every automatic fan walks the curve up to its terminator, every manual
        fan is re-applied at its stored duty. The C function has no `return`; this one hands
        back the intended `true`, which keeps the repeating timer running. */
    method SetFanSpeeds(temps: seq<int>) returns (repeat: bool)
      requires Valid() && NUM_FANS <= |temps|
      modifies autoSpeed, pwm, this`levels
      ensures Valid() && Bank() == FanSpeeds(old(Bank()), temps, NUM_FANS)
      ensures Returns(repeat) == SET_FAN_SPEEDS_RETURNS_INTENDED
    {
      CurveTerminated();
      var i := 0;
      while i < NUM_FANS
        invariant i <= NUM_FANS
        invariant Valid() && Bank() == FanSpeeds(old(Bank()), temps, i)
      {
        if autoSpeed[i] {
          ghost var start := Bank();
          var row := 0;
          while CURVE[row].lo != PWM_CURVE_INVALID
            invariant row <= CURVE_ROWS
            invariant Valid() && Bank() == ApplyRows(start, i, temps[i], row)
            decreases CURVE_ROWS - row
          {
            if CURVE[row].lo < temps[i] && temps[i] <= CURVE[row].hi {
              SetFanPwm(i, CURVE[row].duty);
            }
            row := row + 1;
          }
        } else {
          SetFanPwm(i, pwm[i]);
        }
        i := i + 1;
      }
      repeat := true;
    }

    /** fanspeed_callback(gpio, events): the `switch (gpio)` over the seven tacho pins. */
    method FanspeedCallback(gpio: int)
      requires Valid()
      modifies fanCount
      ensures Valid() && Bank() == Tick(old(Bank()), tachoPins, gpio)
    {
      if gpio == tachoPins[0] {
        fanCount[0] := (fanCount[0] as int + 1) % 0x1_0000;
      } else if gpio == tachoPins[1] {
        fanCount[1] := (fanCount[1] as int + 1) % 0x1_0000;
      } else if gpio == tachoPins[2] {
        fanCount[2] := (fanCount[2] as int + 1) % 0x1_0000;
      } else if gpio == tachoPins[3] {
        fanCount[3] := (fanCount[3] as int + 1) % 0x1_0000;
      } else if gpio == tachoPins[4] {
        fanCount[4] := (fanCount[4] as int + 1) % 0x1_0000;
      } else if gpio == tachoPins[5] {
        fanCount[5] := (fanCount[5] as int + 1) % 0x1_0000;
      } else if gpio == tachoPins[6] {
        fanCount[6] := (fanCount[6] as int + 1) % 0x1_0000;
      }
    }

    /** The measurement loop of core1_entry: speed from the pulse count, then the count reset. */
    method MeasureSpeeds()
      requires Valid()
      modifies speed, fanCount
      ensures Valid() && Bank() == Measure(old(Bank()))
    {
      var i := 0;
      while i < NUM_FANS
        invariant i <= NUM_FANS && Valid()
        invariant forall k :: 0 <= k < i ==> speed[k] == (old(fanCount[k]) as int * 6) % 0x1_0000 && fanCount[k] == 0
        invariant forall k :: i <= k < NUM_FANS ==> speed[k] == old(speed[k]) && fanCount[k] == old(fanCount[k])
      {
        speed[i] := (fanCount[i] as int * 6) % 0x1_0000;
        fanCount[i] := 0;
        i := i + 1;
      }
      assert speed[..] == Measure(old(Bank())).speed;
      assert fanCount[..] == Measure(old(Bank())).count;
    }
  }
}
