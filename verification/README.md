# pc-monitoring in Dafny

pc-monitoring drives a PC's radiator fan from a thermistor.

- **Firmware side.** A microcontroller reads the thermistor through a voltage divider on its 12-bit ADC. It turns each reading into a resistance in `U20F12` fixed point. It sends a `Thermistor` record (name, Beta-equation parameters, resistance) over a serial line every cycle.
- **Host side.** A Linux program decodes the records and computes a temperature. It maps the temperature to a fan duty through a piecewise-linear control curve given on the command line. It writes the duty to a hwmon PWM file. A watchdog counter resets and reconnects the USB device when no record has arrived for twenty loop iterations.

This project models three pieces of that logic as pure functions and proves their properties:

| module | file | what it models |
|---|---|---|
| `Wrappers`, `Ints` | wrappers.dfy, ints.dfy | `Result`/`Option` and the fixed-width integer ranges |
| `Parsing` | parsing.dfy | `str::split` on one character; the unsigned `from_str_radix`/`parse::<u8>`; `parse_hex` |
| `ControlCurve` | control_curve.dfy | `ControlPoints::from` (split, parse, stable sort by temperature) and `ControlPoints::get_pwm_from_temp` |
| `LinkWatchdog` | link_watchdog.dfy | the host's inner loop as a state machine over {iteration start, decoded record}: `alive_counter`, `log_divider`, the (0, 100] gate and the connect-time writes |
| `DivisionFacts` | division_facts.dfy | helper lemmas on integer division used by the two modules below |
| `FixedPoint` | fixed_point.dfy | `U20F12` as its 32-bit pattern: `from_num`, `/`, `- ONE`, `to_num`, with overflow, underflow and division by zero as errors |
| `Acquisition` | acquisition.dfy | `reading_to_resistance`, `reading_to_voltage`, and the firmware loop that overwrites the record's resistance each cycle |

Modelling choices:

- **Floats and casts.** The host's `f32` arithmetic is modelled with `real`. `f32 as u8` is Rust's saturating cast: it truncates, then clamps to 0..255.
- **Failures.** A panic of the firmware (a fixed-point overflow, or a division by zero) is a `Failure` value. So is a panic of the host's `unwrap` on a bad configuration segment.
- **The fan curve in the watchdog.** The loop `LinkWatchdog.Run` takes the fan curve as a parameter `fan: real -> U8`. `LinkWatchdog.Host` composes the whole host program: it parses the configuration with `ControlCurve.FromString`, writes the first connection's control mode and duty 255, and runs the loop with `ControlCurve.GetPwmFromTemp` of the parsed points. `LinkWatchdog.HostWritesCurveDuties` shows that the duties it writes, apart from the safe duty of each connect, are exactly that curve at the plausible decoded temperatures.
- **Connect and reconnect.** Reaching the threshold resets the device. It then re-enters the outer loop, which writes the control mode, then duty 255, then zeroes both counters. The model does all of this in one step.
- **Untrimmed segments.** The usage text's own example `"20:100, 30:150"` is rejected. The segment after the comma is `" 30:150"`, and `parse::<u8>` does not skip the blank (`ControlCurve.SpacedConfigFails`).
- **Resistance is increasing.** With the firmware's formula `R = pull / (max / reading - 1)`, the resistance grows with the reading (`Acquisition.ResistanceMonotone`).
- **Range of the board's pull-up.** With the board's 4.7 kΩ pull-up, the conversion succeeds exactly for readings 1 to 4076:
  - 0 and 4095 divide by zero;
  - 4077 to 4094 overflow the last 32-bit division;
  - codes above 4095 make `max / reading - ONE` underflow.

## Model

| member | source | states |
|---|---|---|
| Parsing.Split | host/src/main.rs:89-91 | `split` yields at least one piece. No piece contains the separator. Joining the pieces with it gives back the input. |
| Parsing.SplitCount | host/src/main.rs:89-91 | k separators give exactly k + 1 pieces, because empty pieces are kept. |
| Parsing.SplitWithoutSeparator | host/src/main.rs:89-91 | A string without the separator is one piece, itself. |
| Parsing.SplitLeadingPiece | host/src/main.rs:89-91 | A separator-free prefix followed by the separator splits off as the first piece. |
| Parsing.SplitJoinRoundTrip | host/src/main.rs:89-91 | Splitting the join of separator-free pieces recovers exactly those pieces. |
| Parsing.DigitValue | host/src/main.rs:15-17 | `char::to_digit`: a character's digit value, when it has one, is below the radix. |
| Parsing.DigitChar | host/src/main.rs:15-17 | Every value below the radix has a digit character that reads back as that value. |
| Parsing.DigitValueInverse | host/src/main.rs:15-17 | A character with a digit value is that value's digit character, or its upper-case letter form. |
| Parsing.UpperDigitValue | host/src/main.rs:15-17 | Upper-case letters are digits: the letter v − 10 places after 'A' has value v in every radix above v. |
| Parsing.DigitValueUpper | host/src/main.rs:15-17 | A character and its upper-case form have the same digit value in every radix. |
| Parsing.Accumulate | host/src/main.rs:15-17 | The digit loop succeeds exactly when all characters are digits and the value stays below the type's bound. It then returns that value. Its errors are InvalidDigit or PosOverflow, never Empty. |
| Parsing.ParseUnsigned | host/src/main.rs:15-17 | Unsigned `from_str_radix` succeeds iff the input is an optional '+' followed by ≥ 1 digit whose value fits. It returns that value. Empty is reported exactly for the empty string. |
| Parsing.ParseU8 | host/src/main.rs:92 | `parse::<u8>` succeeds iff the input is a decimal numeral below 256. It returns the numeral's value. |
| Parsing.ParseHex | host/src/main.rs:15-17 | `parse_hex` succeeds iff the input is a hexadecimal numeral below 65536. It returns its value. Empty input fails with Empty. |
| Parsing.AccumulateUpper | host/src/main.rs:15-17 | The digit loop gives the same value or the same error on an upper-cased string. |
| Parsing.ParseUnsignedIgnoresCase | host/src/main.rs:15-17 | Unsigned `from_str_radix` gives the same result on a string and its upper-case form. |
| Parsing.ParseHexIgnoresCase | host/src/main.rs:15-17 | `parse_hex` gives the same value or the same error on a string and its upper-case form. |
| Parsing.ToNumeralValue | host/src/main.rs:15-17 | The numeral written for n in any radix reads back as n. This is the partner of the digit loop. |
| Parsing.ParseToNumeralRoundTrip | host/src/main.rs:15-17 | Parsing the numeral of any in-range value yields that value. |
| Parsing.ParseHexRoundTrip | host/src/main.rs:15-17 | `parse_hex` accepts the hexadecimal numeral of every `u16` and returns it. |
| Parsing.ParseHexUpperRoundTrip | host/src/main.rs:15-17 | `parse_hex` accepts the upper-case hexadecimal numeral of every `u16` and returns it. |
| Parsing.ParseHexExamples | host/src/main.rs:15-17 | The identifier "1A86" and its lower-case form "1a86" both parse to 0x1A86. |
| Parsing.ParseU8Examples | host/src/main.rs:92 | Leading or trailing blanks are InvalidDigit, a lone '+' is InvalidDigit, and "" is Empty. "+30" is 30, "007" is 7, "255" is 255, and "256" overflows. |
| ControlCurve.ParseSegment | host/src/main.rs:90-93 | A segment succeeds iff it has ≥ 2 ':'-fields and the first two parse as `u8`. The result is that pair. A segment without ':' always fails. Failures carry the segment's index. |
| ControlCurve.Collect | host/src/main.rs:88-94 | Mapping with a fallible step succeeds iff every element succeeds, giving the results in order. Otherwise the error is that of the first failing element, and all earlier ones succeed. |
| ControlCurve.ParseSegments | host/src/main.rs:88-94 | All segments parse iff each is well formed. The points are then one per segment, in order. A failure names the first bad segment, and its error is that segment's own error. |
| ControlCurve.Insert | host/src/main.rs:95 | One insertion step of the stable sort adds exactly the new point: one more element, and the multiset grows by that point. |
| ControlCurve.InsertSorted | host/src/main.rs:95 | Inserting into a sorted list keeps it sorted and adds exactly that point (length and multiset). |
| ControlCurve.InsertKeepsOrder | host/src/main.rs:95 | Insertion places the new point after every point of equal temperature already present. |
| ControlCurve.InsertInFrontKeepsOrder | host/src/main.rs:95 | A point colder than the whole sorted list goes first, and no list point shares its temperature. |
| ControlCurve.InsertSortsOneMore | host/src/main.rs:95 | Inserting the next point into a stable sort of the points before it gives a stable sort of them all. |
| ControlCurve.SortByTemp | host/src/main.rs:95 | `sort_by_key` on the temperature gives a sorted permutation of the same length. Among points of equal temperature, the input order is kept (stability). |
| ControlCurve.FromString | host/src/main.rs:86-98 | `ControlPoints::from` succeeds iff every comma-separated segment is well formed. It then yields one point per segment, stably sorted by temperature. On failure it reports the first bad segment's own error. |
| ControlCurve.SimpleSegment | host/src/main.rs:91-92 | `t:p` with two `u8` numerals parses to the point (t, p). |
| ControlCurve.ExtraFieldsIgnored | host/src/main.rs:91-92 | Anything after a second ':' is ignored: `t:p:rest` parses exactly as `t:p`. |
| ControlCurve.SegmentWithoutColon | host/src/main.rs:91-92 | A segment without ':' fails on its temperature when that is not a `u8` numeral. Otherwise it fails for the missing second field. |
| ControlCurve.ConfigWithoutComma | host/src/main.rs:88-95 | A configuration without ',' yields the one-point curve of its only segment, or that segment's error. |
| ControlCurve.SpacedConfigFails | host/src/main.rs:46 | The usage text's example "20:100, 30:150" is rejected: segment 1's temperature " 30" is InvalidDigit. |
| ControlCurve.EmptyConfigFails | host/src/main.rs:88-92 | The empty configuration fails on segment 0 with an empty temperature. |
| ControlCurve.TemperatureOnlyFails | host/src/main.rs:91-92 | "20" fails on segment 0 for the missing ':' field. |
| ControlCurve.CastToU8 | host/src/main.rs:78 | Inside [0, 256), `as u8` is the floor of the value. |
| ControlCurve.Scan | host/src/main.rs:67-80 | Walking the adjacent pairs keeps the previous value when no pair holds the temperature. Otherwise the last pair whose interval [t1, t2) holds it decides. Interpolation is only reached when t1 < t2, so the division is never by zero. |
| ControlCurve.GetPwmFromTemp | host/src/main.rs:66-83 | The duty is 255 when no interval [t_i, t_(i+1)) holds the temperature. Otherwise it is the interpolation on the last interval that does. |
| ControlCurve.LineBetween | host/src/main.rs:77-78 | `a*temp + p1 - a*t1` is the point-slope line through (t1, p1). On [t1, t2) it lies between p1 and p2. |
| ControlCurve.LineWithinSegment | host/src/main.rs:77-78 | On [t1, t2) the line `a*temp + p1 - a*t1` is p1 + a·(T − t1), lies in [0, 256), and its floor lies between p1 and p2 and is p1 at T = t1. |
| ControlCurve.Interpolate | host/src/main.rs:76-78 | On [t1, t2) the duty is floor(p1 + a·(T − t1)): the cast never saturates. It lies between min(p1, p2) and max(p1, p2), and equals p1 at T = t1. |
| ControlCurve.SortedCurveSingleSegment | host/src/main.rs:68-80 | On a sorted curve at most one adjacent pair holds a given temperature. |
| ControlCurve.SortedCurveInterpolates | host/src/main.rs:66-83 | On a sorted curve the duty is the interpolation on the one pair holding the temperature. |
| ControlCurve.OutsideCurveIsSafe | host/src/main.rs:67-82 | On a sorted curve, below the first threshold or at/above the last one, the duty is 255. |
| ControlCurve.SinglePointIsSafe | host/src/main.rs:67-82 | A one-point curve always gives 255. |
| ControlCurve.TestCurveAtThresholds | host/src/main.rs:236-240 | The unit test's curve gives 100, 150 and 200 at 0, 20 and 50 degrees. |
| ControlCurve.MiddleSegmentAtThirty | host/src/main.rs:77-78 | The pair (20, 150)–(50, 200) interpolates 30 degrees to 166. |
| ControlCurve.TestCurveBetweenThresholds | host/src/main.rs:242 | The unit test's curve gives 166 at 30 degrees. |
| ControlCurve.TestCurveOutside | host/src/main.rs:66-83 | The unit test's curve gives 255 at −5, 100 and 150 degrees. |
| LinkWatchdog.Step | host/src/main.rs:146-184 | Counters stay in range (alive < 20, log divider < 30). A decoded record zeroes the alive counter. A reset happens iff an iteration start brings the counter to 20, and it leaves a fresh connection. Below 20 an iteration start writes nothing and keeps the log divider. A plausible temperature T's actions are exactly the log of (T, fan(T)) when the divider reaches 30, then the write of the curve's duty fan(T); the divider moves on by one, or back to 0 at 30. An implausible temperature writes nothing and leaves the log divider alone. |
| LinkWatchdog.Run | host/src/main.rs:130-192 | Over any sequence of events the counters stay in range, and the actions never end between a control-mode write and its safe duty. |
| LinkWatchdog.ValidTemps | host/src/main.rs:173 | The temperatures that pass the gate are all in (0, 100], at most one per event. |
| LinkWatchdog.CurveWritesUpToAppend | host/src/main.rs:131-183 | Within two joined action runs, the curve writes up to any point of the second run are those of the first followed by those of the second up to that point. |
| LinkWatchdog.CurveWritesAppend | host/src/main.rs:131-183 | The curve's duty writes of two action runs add up when the first does not end on a control-mode write. |
| LinkWatchdog.StepCurveWrites | host/src/main.rs:173-183 | One event writes a curve duty exactly when it is a plausible reading, and that duty is the curve's value at its temperature. |
| LinkWatchdog.CurveWritesFollowReadings | host/src/main.rs:169-183 | Over any events, the duties written other than the connect-time 255 are the curve at the plausible decoded temperatures, one for one and in order. |
| LinkWatchdog.StepLogs | host/src/main.rs:173-182 | One event logs a reading exactly when it is plausible and brings the divider to 30. |
| LinkWatchdog.LogsAppend | host/src/main.rs:176-182 | Logged readings of two action runs add up. |
| LinkWatchdog.AliveCountsSilence | host/src/main.rs:147-169 | The alive counter is the number of iteration starts since the last decoded record (or since the start state), modulo 20. |
| LinkWatchdog.ReconnectExactlyAfterSilence | host/src/main.rs:147-153 | After a connect, the next iteration start resets iff it completes a multiple of 20 silent iterations. |
| LinkWatchdog.SilentStep | host/src/main.rs:147-153 | One iteration start resets once exactly when it brings the counter to 20, which leaves it at 0; otherwise it adds one. |
| LinkWatchdog.ResetsAppend | host/src/main.rs:150-152 | Resets of two action runs add up. |
| LinkWatchdog.HasDecodedLast | host/src/main.rs:169 | A record has been decoded in a run iff one was decoded before its last event or the last event is one. |
| LinkWatchdog.SilenceResetCount | host/src/main.rs:147-153 | n silent iterations from counter c reset the device (c + n) / 20 times and leave the counter at (c + n) mod 20. |
| LinkWatchdog.ReadingLogCount | host/src/main.rs:144-182 | Over any events without a reset, with n plausible readings among them, starting from divider d: (d + n) / 30 readings are logged and the divider ends at (d + n) mod 30. Implausible readings and iteration starts do not count. |
| LinkWatchdog.ReadingLogBalance | host/src/main.rs:173-182 | Within one connection, d plus the number of plausible readings equals 30 per logged reading plus the final divider. |
| LinkWatchdog.LastEventLogs | host/src/main.rs:173-182 | Without a reset, the last event adds a log exactly when it is a plausible reading that brings the divider to 30, and moves the divider exactly when it is plausible. |
| LinkWatchdog.StepDivider | host/src/main.rs:175-182 | Without a reset, one event moves the log divider on by one (to 0 at 30) exactly when it is a plausible reading. |
| LinkWatchdog.ResetWritesSafeDutyFirst | host/src/main.rs:130-153 | Every reset is followed at once by the control-mode write and the duty 255. |
| LinkWatchdog.ControlModeFollowsReset | host/src/main.rs:150-152 | Inside the loop the control mode is written only right after a reset. |
| LinkWatchdog.Origins | host/src/main.rs:146-183 | Each action of a run is attributed to the event that produced it: one origin per action, each an index of the events, in non-decreasing order. |
| LinkWatchdog.PwmWritesAreGated | host/src/main.rs:131-183 | Every duty written is either 255 right after the control-mode write, or the curve's value at the temperature, in (0, 100], decoded by the very event that produced the write. |
| LinkWatchdog.GatedFromFront | host/src/main.rs:146-183 | A write made before the last event keeps its producing event and its justification when the run grows. |
| LinkWatchdog.GatedFromLast | host/src/main.rs:146-183 | A write made by the last event is the safe duty after a control-mode write or the curve at that event's plausible temperature. |
| LinkWatchdog.Host | host/src/main.rs:128-132 | The host program fails iff the configuration does not parse, with its error and no action. Otherwise it starts with the control-mode write and duty 255. |
| LinkWatchdog.Program | host/src/main.rs:130-132 | Once the curve is parsed the program's actions start with the control-mode write and duty 255. |
| LinkWatchdog.HostWritesCurveDuties | host/src/main.rs:128-183 | For a configuration that parses, every duty the program writes other than a connect's 255 is `get_pwm_from_temp` of the parsed curve at a decoded temperature in (0, 100]. There is one such write per plausible reading, in order. |
| LinkWatchdog.ProgramWritesCurveDuties | host/src/main.rs:130-183 | The same for the program over already-parsed points. |
| LinkWatchdog.HostConnectionsStartSafe | host/src/main.rs:130-153 | Every connection of the host program, the first included, writes duty 255 right after the control mode. |
| LinkWatchdog.ProgramConnectionsStartSafe | host/src/main.rs:130-153 | The same for the program over already-parsed points. |
| LinkWatchdog.ConnectionsStartSafe | host/src/main.rs:130-153 | The same for the connect writes followed by the loop with any fan curve. |
| FixedPoint.FromNum | embedded/src/bin/main.rs:147-149 | `from_num` succeeds iff the integer is below 2^20. The bits are then a multiple of 4096 standing for that integer. |
| FixedPoint.ToNum | embedded/src/bin/main.rs:152 | `to_num` drops the twelve fraction bits: it returns n with n·4096 ≤ bits < (n+1)·4096. |
| FixedPoint.Div | embedded/src/bin/main.rs:151 | Division fails with DivideByZero iff the divisor is 0. It succeeds iff the quotient fits 32 bits, and the result is the exact quotient truncated to twelve fraction bits. |
| FixedPoint.Sub | embedded/src/bin/main.rs:151 | Subtraction succeeds iff it does not go below zero, and undoes addition. |
| FixedPoint.FromNumToNum | embedded/src/bin/main.rs:147-152 | Converting an integer in and back out gives it back. |
| FixedPoint.DivOfIntegers | embedded/src/bin/main.rs:149-151 | The fixed-point quotient of two integers is the exact quotient m/n truncated to twelve fractional bits (bits m·4096 / n). |
| Acquisition.FromU16 | embedded/src/bin/main.rs:147 | `from_num` of any `u16` succeeds. |
| Acquisition.ReadingToResistance | embedded/src/bin/main.rs:146-153 | A pull-up of 2^20 or more overflows. Any result is below 2^20. |
| Acquisition.RatioBits | embedded/src/bin/main.rs:149-151 | `max / reading` never fails for a positive reading and equals 4095·4096 / reading in bits. |
| Acquisition.DividerBitsSign | embedded/src/adc.rs:13-15 | `max / reading - ONE` is at least one bit below 4095, zero at 4095, and negative above. |
| Acquisition.DividerBitsMonotone | embedded/src/bin/main.rs:151 | The divisor shrinks as the reading grows. |
| Acquisition.ResistanceLastStep | embedded/src/bin/main.rs:151-152 | For a positive reading the conversion is the last division, or Underflow when the divisor is negative. |
| Acquisition.ReadingOutsideRangeFails | embedded/src/bin/main.rs:146-153 | Readings 0 and 4095 fail with DivideByZero. Readings above 4095 fail with Underflow. |
| Acquisition.ResistanceClosedForm | embedded/src/bin/main.rs:146-153 | Inside (0, 4095) the conversion succeeds iff pull·4096² < 2^32·divisor. It then equals pull·4096 / divisor, the bit-level evaluation with its truncations. |
| Acquisition.ResistanceMonotone | embedded/src/bin/main.rs:146-153 | If a reading converts, every smaller positive reading converts too, to a resistance no larger. |
| Acquisition.ClosedFormNotBelowExact | embedded/src/bin/main.rs:151 | The closed form is at least the truncated exact divider resistance. |
| Acquisition.ResistanceNotBelowExact | embedded/src/bin/main.rs:146-153 | Every successful conversion comes from a reading in (0, 4095). It is at least pull·reading / (4095 − reading). |
| Acquisition.BoardPullUpDomain | embedded/src/bin/main.rs:114 | With the 4.7 kΩ pull-up, the conversion succeeds iff the reading is in 1..4076. |
| Acquisition.BoardReadingExamples | embedded/src/bin/main.rs:114 | With the 4.7 kΩ pull-up, reading 2730 converts to 9400 Ω and reading 4076 to 1 013 221 Ω. |
| Acquisition.ReadingToVoltage | embedded/src/bin/main.rs:155-157 | Within the ADC range the millivolts are the floor of vRef·reading / 4095, and never exceed vRef. |
| Acquisition.ProductFitsU32 | embedded/src/bin/main.rs:156 | The `u32` product of two `u16` values never overflows. |
| Acquisition.VoltageEnds | embedded/src/bin/main.rs:155-157 | Reading 0 gives 0 mV and reading 4095 gives vRef. |
| Acquisition.VoltageMonotone | embedded/src/bin/main.rs:155-157 | Within the ADC range a larger reading never gives fewer millivolts. |
| Acquisition.BoardVoltageNeverWraps | embedded/src/bin/main.rs:155-157 | With the firmware's 3300 mV reference, the `as u16` cast never wraps for any `u16` reading: the result is 3300·reading / 4095. |
| Acquisition.VoltageWrapsAboveRange | embedded/src/bin/main.rs:156 | Outside the ADC range the `as u16` cast wraps: 0xFFFF with reference 0xFFFF gives 224. |
| Acquisition.Acquire | embedded/src/bin/main.rs:105-133 | The loop sends one record per reading until a conversion fails. Each record keeps the name and parameters and carries that reading's resistance. The failing reading's error is the one that stops the loop. |
| Acquisition.RadiatorRun | embedded/src/bin/main.rs:91-115 | The firmware's record stays "radiator_in" with (3950, 25, 10000). The loop runs on exactly while readings stay in 1..4076. |

## Left out

- COBS framing, postcard serialisation and `CobsAccumulator::feed`: these are the external `postcard` crate. A decoded record is the event `Decoded(temp)`; framing errors and partial reads are not modelled.
- `Thermistor::get_temperature`: it is `f32` Beta-equation arithmetic with a natural logarithm. The host's temperature is therefore an arbitrary real input to the watchdog.
- Exact `f32` rounding in `get_pwm_from_temp`: its arithmetic is exact real arithmetic followed by the saturating cast.
- OS and hardware I/O are left out:
  - hwmon directory discovery, `fs::write` errors, `serialport`, `reset_usb`/`rusb`, `sleep` timings, logging set-up and `clap` argument parsing on the host;
  - the ADC register sequence, RTC wake-up, interrupts, UART and GPIO on the device.

  The writes, reset and log appear only as `Action` values.
- `lib/src/lib.rs`: re-exports and module declarations only.
- Release-build wrap-around of `U20F12` overflow: the model uses the debug-build behaviour, where an overflow panics and is reported as an error.
- `alive_counter` and `log_divider` are `u8`: they never exceed 20 and 30, so no wrap-around is modelled.
- `ControlPoints::from`'s `unwrap` panics are `Failure` values carrying the segment index and the `ParseIntError` kind; the panic message is not modelled.
- Acquisition.ReadingToResistance: its own contract states only the overflow of a large pull-up and the 2^20 bound. The exact characterisation is in `ResistanceClosedForm`, `ReadingOutsideRangeFails` and `ResistanceMonotone`.
