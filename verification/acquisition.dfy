/** The firmware's acquisition loop: an ADC reading is turned into the
    thermistor's resistance with the voltage-divider equation in `U20F12`
    fixed point, and into millivolts for the log; the resistance overwrites
    the one field of the record that changes before the record is sent. */
module Acquisition {
  import opened Wrappers
  import opened Ints
  import opened DivisionFacts
  import opened FixedPoint

  /** `Adc::max_reading()`: the ADC's largest 12-bit code. */
  const MaxReading: nat := 0x0FFF

  /** The pull-up resistor of the divider, in ohms. */
  const PullUpOhms: nat := 4700

  /** The ADC reference voltage, in millivolts. */
  const VRefMillivolts: nat := 3300

  /* ---------------------------------------------------------------------- */
  /* reading_to_resistance                                                  */
  /* ---------------------------------------------------------------------- */

  /** `U20F12::from_num` of a `u16`, which always fits. */
  function FromU16(n: U16): (x: Fixed)
    ensures FromNum(n) == Success(x)
  {
    n * One
  }

  /** `R = pull / (max / reading - 1)`, each step in `U20F12`, converted
      back to an integer. A failure is the panic of the step that fails;
      the conversions of `reading` and `max_reading` cannot fail. */
  function ReadingToResistance(reading: U16, pullUp: U32): (r: Result<U32, ArithError>)
    ensures pullUp >= IntLimit ==> r == Failure(Overflow)
    ensures r.Success? ==> r.value < IntLimit
  {
    var pull :- FromNum(pullUp);
    var ratio :- Div(FromU16(MaxReading as U16), FromU16(reading));
    var divisor :- Sub(ratio, One);
    var result :- Div(pull, divisor);
    Success(ToNum(result))
  }

  /** The fixed-point bits of `max / reading - 1`: the divider ratio
      truncated to twelve fractional bits, minus one. */
  function DividerBits(reading: nat): int
    requires reading > 0
  {
    (MaxReading * One) / reading - One
  }

  /** The ratio step never overflows and is exactly the integer quotient
      `4095 * 4096 / reading` in bits. */
  lemma {:induction false} RatioBits(reading: U16)
    requires reading > 0
    ensures Div(FromU16(MaxReading as U16), FromU16(reading)) == Success((MaxReading * One) / reading)
  {
    DivOfIntegers(MaxReading, reading);
  }

  /** For a reading strictly inside the ADC range the divisor is at least
      one bit; above the range `max / reading` is below one. */
  lemma {:induction false} DividerBitsSign(reading: nat)
    requires reading > 0
    ensures reading < MaxReading ==> DividerBits(reading) >= 1
    ensures reading == MaxReading ==> DividerBits(reading) == 0
    ensures reading > MaxReading ==> DividerBits(reading) < 0
  {
    var q := (MaxReading * One) / reading;
    DivAtLeast(MaxReading * One, reading, One + 1);
    DivAtLeast(MaxReading * One, reading, One);
  }

  /** The divisor shrinks as the reading grows. */
  lemma {:induction false} DividerBitsMonotone(r1: nat, r2: nat)
    requires 0 < r1 <= r2
    ensures DividerBits(r2) <= DividerBits(r1)
  {
    DivMonoDivisor(MaxReading * One, r1, r2);
  }

  /** For a representable pull-up and a positive reading, the conversion
      comes down to its last division. */
  lemma {:induction false} ResistanceLastStep(reading: U16, pullUp: U32)
    requires pullUp < IntLimit && reading > 0
    ensures DividerBits(reading) < 0 ==> ReadingToResistance(reading, pullUp) == Failure(Underflow)
    ensures DividerBits(reading) >= 0 ==>
      ReadingToResistance(reading, pullUp)
        == (var q := Div(pullUp * One, DividerBits(reading));
            if q.Success? then Success(ToNum(q.value)) else Failure(q.error))
  {
    RatioBits(reading);
  }

  /** Outside the open ADC range the conversion fails: zero and full scale
      divide by zero, larger codes make `max / reading - 1` underflow. */
  lemma {:induction false} ReadingOutsideRangeFails(reading: U16, pullUp: U32)
    requires pullUp < IntLimit
    ensures reading == 0 ==> ReadingToResistance(reading, pullUp) == Failure(DivideByZero)
    ensures reading == MaxReading ==> ReadingToResistance(reading, pullUp) == Failure(DivideByZero)
    ensures reading > MaxReading ==> ReadingToResistance(reading, pullUp) == Failure(Underflow)
  {
    if reading > 0 {
      DividerBitsSign(reading);
      ResistanceLastStep(reading, pullUp);
    }
  }

  /** For a representable pull-up and a reading inside the range, the
      conversion succeeds exactly when the last division fits in 32 bits,
      and then yields `pull * 4096 / divisor`: the fixed-point evaluation
      with its two truncations folded into one. */
  lemma {:induction false} ResistanceClosedForm(reading: U16, pullUp: U32)
    requires pullUp < IntLimit
    requires 0 < reading < MaxReading
    ensures DividerBits(reading) >= 1
    ensures ReadingToResistance(reading, pullUp).Success?
        <==> pullUp * One * One < U32Limit * DividerBits(reading)
    ensures ReadingToResistance(reading, pullUp).Success?
        ==> ReadingToResistance(reading, pullUp).value == (pullUp * One) / DividerBits(reading)
  {
    var d := DividerBits(reading);
    DividerBitsSign(reading);
    ResistanceLastStep(reading, pullUp);
    var pull := pullUp * One;
    var r := Div(pull, d);
    if r.Success? {
      var q := r.value;
      assert q * d <= pull * One < (q + 1) * d;
      DivUnique(pull * One, d, q);
      DivDiv(pull * One, d, One);
      assert pull * One == (pullUp * One) * One;
      DivCancel(pullUp * One, d, One);
    }
  }

  /** The resistance grows with the reading, and a successful reading
      makes every smaller positive reading succeed too. */
  lemma {:induction false} ResistanceMonotone(r1: U16, r2: U16, pullUp: U32)
    requires 0 < r1 <= r2
    requires ReadingToResistance(r2, pullUp).Success?
    ensures ReadingToResistance(r1, pullUp).Success?
    ensures ReadingToResistance(r1, pullUp).value <= ReadingToResistance(r2, pullUp).value
  {
    ResistanceClosedForm(r2, pullUp);
    ResistanceClosedForm(r1, pullUp);
    var d1 := DividerBits(r1);
    var d2 := DividerBits(r2);
    DividerBitsMonotone(r1, r2);
    MulMono(d2, d1, U32Limit);
    assert U32Limit * d2 <= U32Limit * d1 by {
      assert d2 * U32Limit == U32Limit * d2 && d1 * U32Limit == U32Limit * d1;
    }
    DivMonoDivisor(pullUp * One, d2, d1);
  }

  /** The arithmetic behind `ResistanceNotBelowExact`: a divisor taken
      from a ratio truncated downwards times any lower bound of the exact
      quotient stays within the dividend. */
  lemma {:induction false} TruncatedDivisorBound(pullUp: nat, reading: nat, ratio: nat, d: nat, exact: nat)
    requires 0 < reading < MaxReading
    requires ratio * reading <= MaxReading * One
    requires d + One == ratio
    requires exact * (MaxReading - reading) <= pullUp * reading
    ensures exact * d <= pullUp * One
  {
    var gap := MaxReading - reading;
    var dr := d * reading;
    assert dr + One * reading == ratio * reading;
    assert dr <= One * gap;
    MulMono(dr, One * gap, exact);
    var lhs := dr * exact;
    assert lhs <= (One * gap) * exact;
    assert (One * gap) * exact == One * (exact * gap);
    MulMono(exact * gap, pullUp * reading, One);
    assert (exact * gap) * One <= (pullUp * reading) * One;
    assert lhs == (exact * d) * reading;
    assert (pullUp * reading) * One == (pullUp * One) * reading;
    MulMono(pullUp * One + 1, exact * d, reading);
    assert (pullUp * One + 1) * reading == (pullUp * One) * reading + reading;
  }

  /** The closed form is never below the exact divider resistance. */
  lemma {:induction false} ClosedFormNotBelowExact(reading: nat, pullUp: nat)
    requires 0 < reading < MaxReading
    ensures DividerBits(reading) >= 1
    ensures (pullUp * One) / DividerBits(reading) >= (pullUp * reading) / (MaxReading - reading)
  {
    var ratio := (MaxReading * One) / reading;
    var exact := (pullUp * reading) / (MaxReading - reading);
    DividerBitsSign(reading);
    var d := DividerBits(reading);
    DivBounds(MaxReading * One, reading);
    DivBounds(pullUp * reading, MaxReading - reading);
    TruncatedDivisorBound(pullUp, reading, ratio, d, exact);
    DivAtLeast(pullUp * One, d, exact);
  }

  /** The fixed-point result is never below the exact divider resistance
      `pull * reading / (max - reading)`, truncated: truncating the ratio
      can only make the divisor smaller. */
  lemma {:induction false} ResistanceNotBelowExact(reading: U16, pullUp: U32)
    requires ReadingToResistance(reading, pullUp).Success?
    ensures 0 < reading < MaxReading
    ensures ReadingToResistance(reading, pullUp).value >= (pullUp * reading) / (MaxReading - reading)
  {
    ReadingOutsideRangeFails(reading, pullUp);
    ResistanceClosedForm(reading, pullUp);
    ClosedFormNotBelowExact(reading, pullUp);
  }

  /** With the board's 4.7 kOhm pull-up the conversion succeeds exactly
      for the readings 1 to 4076; from 4077 to 4094 the last division
      overflows the 32-bit range. */
  lemma {:induction false} BoardPullUpDomain(reading: U16)
    ensures ReadingToResistance(reading, PullUpOhms).Success? <==> 1 <= reading <= 4076
  {
    if 0 < reading < MaxReading {
      ResistanceClosedForm(reading, PullUpOhms);
      var d := DividerBits(reading);
      assert PullUpOhms * One * One == 78_852_915_200;
      assert U32Limit * 18 < 78_852_915_200 <= U32Limit * 19;
      assert U32Limit * d > 78_852_915_200 <==> d >= 19 by {
        MulMono(d, 18, U32Limit);
        MulMono(19, d, U32Limit);
        assert d * U32Limit == U32Limit * d;
      }
      DivAtLeast(MaxReading * One, reading, One + 19);
      assert 4115 * reading <= 16_773_120 <==> reading <= 4076;
    }
  }

  /** Two readings from the board's range, computed through the closed
      form: two-thirds of full scale gives twice the pull-up, and the
      largest reading that converts gives roughly one megaohm. */
  lemma BoardReadingExamples()
    ensures ReadingToResistance(2730, PullUpOhms) == Success(9400)
    ensures ReadingToResistance(4076, PullUpOhms) == Success(1_013_221)
  {
    ResistanceClosedForm(2730, PullUpOhms);
    DivUnique(MaxReading * One, 2730, 6144);
    DivUnique(PullUpOhms * One, 2048, 9400);
    ResistanceClosedForm(4076, PullUpOhms);
    DivUnique(MaxReading * One, 4076, 4115);
    DivUnique(PullUpOhms * One, 19, 1_013_221);
  }

  /* ---------------------------------------------------------------------- */
  /* reading_to_voltage                                                     */
  /* ---------------------------------------------------------------------- */

  /** `(v_ref_mv as u32 * reading as u32 / max_reading as u32) as u16`:
      the `as u16` cast keeps the low sixteen bits. */
  function ReadingToVoltage(reading: U16, vRef: U16): (v: U16)
    ensures reading <= MaxReading ==> v * MaxReading <= vRef * reading < (v + 1) * MaxReading
    ensures reading <= MaxReading ==> v <= vRef
  {
    ProductFitsU32(vRef, reading);
    var scaled := (vRef * reading) / MaxReading;
    if reading <= MaxReading then
      DivBounds(vRef * reading, MaxReading);
      MulMono(reading, MaxReading, vRef);
      assert vRef * reading <= vRef * MaxReading by {
        assert reading * vRef == vRef * reading && MaxReading * vRef == vRef * MaxReading;
      }
      DivAtLeast(vRef * reading, MaxReading, vRef + 1);
      DivUnique(vRef * MaxReading, MaxReading, vRef);
      scaled % U16Limit
    else
      scaled % U16Limit
  }

  /** The `u32` product of two `u16` values never overflows. */
  lemma {:induction false} ProductFitsU32(x: U16, y: U16)
    ensures x * y < U32Limit
  {
    MulMono(x, U16Limit - 1, y);
    MulMono(y, U16Limit - 1, U16Limit - 1);
    assert (U16Limit - 1) * y == y * (U16Limit - 1);
  }

  /** The ends of the range map to 0 mV and to the reference voltage. */
  lemma {:induction false} VoltageEnds(vRef: U16)
    ensures ReadingToVoltage(0, vRef) == 0
    ensures ReadingToVoltage(MaxReading as U16, vRef) == vRef
  {
    var v := ReadingToVoltage(MaxReading as U16, vRef);
    assert v * MaxReading <= vRef * MaxReading < (v + 1) * MaxReading;
    MulMono(v, vRef, MaxReading);
    MulMono(vRef + 1, v, MaxReading);
  }

  /** Within the ADC range, a larger reading never reads as fewer
      millivolts. */
  lemma {:induction false} VoltageMonotone(r1: U16, r2: U16, vRef: U16)
    requires r1 <= r2 <= MaxReading
    ensures ReadingToVoltage(r1, vRef) <= ReadingToVoltage(r2, vRef)
  {
    var v1: nat := ReadingToVoltage(r1, vRef);
    var v2: nat := ReadingToVoltage(r2, vRef);
    MulMono(r1, r2, vRef);
    assert vRef * r1 <= vRef * r2 by {
      assert r1 * vRef == vRef * r1 && r2 * vRef == vRef * r2;
    }
    MulMono(v2 + 1, v1, MaxReading);
  }

  /** Above the ADC range the `as u16` cast wraps: the full-scale `u16`
      reading with a full-scale reference gives 224 mV. */
  lemma VoltageWrapsAboveRange()
    ensures ReadingToVoltage(0xFFFF, 0xFFFF) == 224
  {
  }

  /** With the board's 3.3 V reference the `as u16` cast never wraps, for
      any `u16` reading: 3300 · 65535 / 4095 is below 65536. */
  lemma BoardVoltageNeverWraps(reading: U16)
    ensures ReadingToVoltage(reading, VRefMillivolts) == VRefMillivolts * reading / MaxReading
  {
    ProductFitsU32(VRefMillivolts, reading);
    var scaled := VRefMillivolts * reading / MaxReading;
    assert VRefMillivolts * reading <= VRefMillivolts * 0xFFFF;
    DivMonoDividend(VRefMillivolts * reading, VRefMillivolts * 0xFFFF, MaxReading);
    assert scaled < U16Limit;
  }

  /* ---------------------------------------------------------------------- */
  /* The thermistor record                                                  */
  /* ---------------------------------------------------------------------- */

  /** `heapless::String<64>`. */
  type Name = s: string | |s| <= 64

  /** The Beta-equation parameters: Beta, reference temperature in whole
      degrees Celsius, and the resistance at that temperature. */
  datatype ThermistorParameter = ThermistorParameter(b: U16, tn: I16, rTn: U32)

  /** The record sent every cycle. */
  datatype Thermistor = Thermistor(name: Name, parameters: ThermistorParameter, resistance: U32)

  /** The record as the firmware initialises it. */
  const RadiatorIn: Thermistor :=
    Thermistor("radiator_in", ThermistorParameter(3950, 25, 10_000), 0)

  /** What the loop has sent when it stops: the records of the cycles that
      completed, in order, and the panic that stopped it, if any. */
  datatype Transmission = Transmission(frames: seq<Thermistor>, halted: Option<ArithError>)

  /** The acquisition loop over a sequence of ADC readings: each cycle
      computes the resistance and sends the record with the new value; a
      failed conversion panics and nothing after it is sent. */
  function Acquire(ntc: Thermistor, readings: seq<U16>): (t: Transmission)
    ensures |t.frames| <= |readings|
    ensures t.halted.None? <==> |t.frames| == |readings|
    ensures t.halted.Some? ==>
      ReadingToResistance(readings[|t.frames|], PullUpOhms) == Failure(t.halted.value)
    ensures forall i :: 0 <= i < |t.frames| ==>
      && t.frames[i].name == ntc.name
      && t.frames[i].parameters == ntc.parameters
      && ReadingToResistance(readings[i], PullUpOhms) == Success(t.frames[i].resistance)
    decreases |readings|
  {
    if |readings| == 0 then Transmission([], None)
    else
      match ReadingToResistance(readings[0], PullUpOhms)
      case Failure(e) => Transmission([], Some(e))
      case Success(res) =>
        var rest := Acquire(ntc.(resistance := res), readings[1..]);
        Transmission([ntc.(resistance := res)] + rest.frames, rest.halted)
  }

  /** The firmware's record keeps its name and parameters through any run,
      and the loop runs on exactly as long as the readings stay within
      1 to 4076. */
  lemma {:induction false} RadiatorRun(readings: seq<U16>)
    ensures var t := Acquire(RadiatorIn, readings);
      && (forall i :: 0 <= i < |t.frames| ==>
            t.frames[i].name == "radiator_in"
            && t.frames[i].parameters == ThermistorParameter(3950, 25, 10_000)
            && 1 <= readings[i] <= 4076)
      && (t.halted.Some? ==> !(1 <= readings[|t.frames|] <= 4076))
  {
    var t := Acquire(RadiatorIn, readings);
    forall i | 0 <= i < |t.frames|
      ensures 1 <= readings[i] <= 4076
    {
      BoardPullUpDomain(readings[i]);
    }
    if t.halted.Some? {
      BoardPullUpDomain(readings[|t.frames|]);
    }
  }
}
