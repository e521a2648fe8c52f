/** The host's control loop in `main`, reduced to the counters it keeps:
    `alive_counter`, which triggers a USB reset and reconnect after twenty
    iterations without a decoded record, and `log_divider`, which logs every
    thirtieth valid reading. Decoding itself is an opaque event carrying the
    record's temperature, and the fan curve is a parameter `fan` (in the
    program, `ControlCurve.GetPwmFromTemp` of the parsed control points). */
module LinkWatchdog {
  import opened Wrappers
  import opened Ints
  import ControlCurve

  /** `alive_counter >= 20` ends the connection. */
  const ReconnectThreshold: nat := 20

  /** `log_divider >= 30` logs the reading and restarts the divider. */
  const LogInterval: nat := 30

  /** The counters of the current connection. */
  datatype Link = Link(alive: nat, logDivider: nat)

  /** What drives the inner loop: the top of an iteration, or a record
      handed back by the stream decoder as `FeedResult::Success`. */
  datatype Event = IterationStart | Decoded(temp: real)

  /** What the loop does to the world outside it. */
  datatype Action =
    | WriteControlMode            // `fs::write(&control_path, ...)`
    | WritePwm(duty: U8)          // `fs::write(&pwm_path, ...)`
    | ResetDevice                 // `reset_usb(...)` and the reconnect
    | LogReading(temp: real, duty: U8)

  datatype Outcome = Outcome(link: Link, actions: seq<Action>)

  /** The counters right after (re)connecting. */
  const Connected: Link := Link(0, 0)

  /** The top of the outer loop: manual control mode, then the safe duty. */
  const ConnectActions: seq<Action> := [WriteControlMode, WritePwm(ControlCurve.SafePwm)]

  /** What every connection keeps between iterations. */
  predicate Valid(link: Link) {
    link.alive < ReconnectThreshold && link.logDivider < LogInterval
  }

  /** Only temperatures in (0, 100] reach the fan. */
  predicate ValidReading(temp: real) {
    0.0 < temp <= 100.0
  }

  /** The fan curve built from parsed control points. Its ensures only
      lets callers see through the closure to `GetPwmFromTemp`. */
  function CurveFan(points: seq<ControlCurve.ControlPoint>): (fan: real -> U8)
    requires |points| >= 1
    ensures forall temp :: fan(temp) == ControlCurve.GetPwmFromTemp(points, temp)
  {
    temp => ControlCurve.GetPwmFromTemp(points, temp)
  }

  /** One event of the inner loop. An iteration start counts the iteration
      and, at the threshold, resets the device and goes back to the top of
      the outer loop. A decoded record clears the counter and, when its
      temperature is plausible, writes the curve's duty. */
  function Step(fan: real -> U8, link: Link, e: Event): (r: Outcome)
    ensures Valid(link) ==> Valid(r.link)
    ensures e.Decoded? ==> r.link.alive == 0
    ensures ResetDevice in r.actions <==> e.IterationStart? && link.alive + 1 >= ReconnectThreshold
    ensures ResetDevice in r.actions ==> r.link == Connected && r.actions == [ResetDevice] + ConnectActions
    ensures e.IterationStart? && link.alive + 1 < ReconnectThreshold ==>
      r.actions == [] && r.link.logDivider == link.logDivider && r.link.alive == link.alive + 1
    ensures e.Decoded? && ValidReading(e.temp) ==>
      && r.actions == (if link.logDivider + 1 >= LogInterval then [LogReading(e.temp, fan(e.temp))] else [])
                      + [WritePwm(fan(e.temp))]
      && r.link.logDivider == (if link.logDivider + 1 >= LogInterval then 0 else link.logDivider + 1)
    ensures e.Decoded? && !ValidReading(e.temp) ==> r.actions == [] && r.link.logDivider == link.logDivider
  {
    match e
    case IterationStart =>
      var count := link.alive + 1;
      if count >= ReconnectThreshold then Outcome(Connected, [ResetDevice] + ConnectActions)
      else Outcome(Link(count, link.logDivider), [])
    case Decoded(temp) =>
      if ValidReading(temp) then
        var duty := fan(temp);
        var divider := link.logDivider + 1;
        if divider >= LogInterval then
          Outcome(Link(0, 0), [LogReading(temp, duty), WritePwm(duty)])
        else
          Outcome(Link(0, divider), [WritePwm(duty)])
      else
        Outcome(Link(0, link.logDivider), [])
  }

  /** No action sequence of the loop ends in the middle of a connect: the
      control-mode write is always followed by the safe duty. */
  predicate EndsOpen(actions: seq<Action>) {
    |actions| == 0 || actions[|actions| - 1] != WriteControlMode
  }

  /** The events in order, from `start`; the actions are concatenated. */
  function Run(fan: real -> U8, start: Link, events: seq<Event>): (r: Outcome)
    ensures Valid(start) ==> Valid(r.link)
    ensures EndsOpen(r.actions)
    decreases |events|
  {
    if |events| == 0 then Outcome(start, [])
    else
      var prev := Run(fan, start, events[..|events| - 1]);
      var last := Step(fan, prev.link, events[|events| - 1]);
      Outcome(last.link, prev.actions + last.actions)
  }

  /* ---------------------------------------------------------------------- */
  /* Counting                                                               */
  /* ---------------------------------------------------------------------- */

  /** How often the device was reset. */
  function Resets(actions: seq<Action>): nat {
    multiset(actions)[ResetDevice]
  }

  /** How many readings were logged. */
  function Logs(actions: seq<Action>): nat {
    if |actions| == 0 then 0
    else Logs(actions[..|actions| - 1]) + (if actions[|actions| - 1].LogReading? then 1 else 0)
  }

  lemma {:induction false} LogsAppend(a: seq<Action>, b: seq<Action>)
    ensures Logs(a + b) == Logs(a) + Logs(b)
    decreases |b|
  {
    if |b| == 0 {
      assert a + b == a;
    } else {
      assert (a + b)[..|a + b| - 1] == a + b[..|b| - 1];
      LogsAppend(a, b[..|b| - 1]);
    }
  }

  /** The temperatures of the plausible decoded records, in order: the
      ones that pass the gate `temp > 0.0 && temp <= 100.0`. */
  function ValidTemps(events: seq<Event>): (r: seq<real>)
    ensures |r| <= |events|
    ensures forall i :: 0 <= i < |r| ==> ValidReading(r[i])
  {
    if |events| == 0 then []
    else
      var e := events[|events| - 1];
      ValidTemps(events[..|events| - 1]) + (if e.Decoded? && ValidReading(e.temp) then [e.temp] else [])
  }

  /** Action `i` writes a duty from the curve: it is a `WritePwm` that does
      not directly follow the control-mode write of a (re)connect. */
  predicate IsCurveWrite(actions: seq<Action>, i: nat)
    requires i < |actions|
  {
    actions[i].WritePwm? && !(i > 0 && actions[i - 1] == WriteControlMode)
  }

  /** The curve's duties among the first `n` actions, in order. */
  function CurveWritesUpTo(actions: seq<Action>, n: nat): seq<U8>
    requires n <= |actions|
  {
    if n == 0 then []
    else CurveWritesUpTo(actions, n - 1) + (if IsCurveWrite(actions, n - 1) then [actions[n - 1].duty] else [])
  }

  /** The duties written from the curve, in order: every `WritePwm` except
      the safe value that directly follows the control-mode write of a
      (re)connect. */
  function CurveWrites(actions: seq<Action>): seq<U8> {
    CurveWritesUpTo(actions, |actions|)
  }

  /** `duties` are `fan` applied to `temps`, one for one and in order. */
  predicate DutiesOf(duties: seq<U8>, fan: real -> U8, temps: seq<real>) {
    |duties| == |temps| && forall i :: 0 <= i < |duties| ==> duties[i] == fan(temps[i])
  }

  /** The curve writes among the first `n` actions depend on those actions
      only. */
  lemma {:induction false} CurveWritesUpToPrefix(s: seq<Action>, t: seq<Action>, n: nat)
    requires n <= |s| && n <= |t|
    requires forall i :: 0 <= i < n ==> s[i] == t[i]
    ensures CurveWritesUpTo(s, n) == CurveWritesUpTo(t, n)
    decreases n
  {
    if n > 0 {
      CurveWritesUpToPrefix(s, t, n - 1);
      assert IsCurveWrite(s, n - 1) == IsCurveWrite(t, n - 1);
    }
  }

  /** Within `a + b`, the curve writes among the first `|a| + k` actions
      are those of `a` followed by those of the first `k` actions of `b`,
      when `a` does not end with a control-mode write. */
  lemma {:induction false} CurveWritesUpToAppend(a: seq<Action>, b: seq<Action>, k: nat)
    requires EndsOpen(a) && k <= |b|
    ensures CurveWritesUpTo(a + b, |a| + k) == CurveWritesUpTo(a, |a|) + CurveWritesUpTo(b, k)
    decreases k
  {
    if k == 0 {
      CurveWritesUpToPrefix(a + b, a, |a|);
    } else {
      CurveWritesUpToAppend(a, b, k - 1);
      var ab := a + b;
      assert ab[|a| + k - 1] == b[k - 1];
      if k > 1 {
        assert ab[|a| + k - 2] == b[k - 2];
      } else if |a| > 0 {
        assert ab[|a| - 1] == a[|a| - 1];
      }
      assert IsCurveWrite(ab, |a| + k - 1) == IsCurveWrite(b, k - 1);
      var wa, wb := CurveWritesUpTo(a, |a|), CurveWritesUpTo(b, k - 1);
      var tail := if IsCurveWrite(b, k - 1) then [b[k - 1].duty] else [];
      assert (wa + wb) + tail == wa + (wb + tail);
    }
  }

  /** Curve writes of two action runs add up when the first does not end
      with a control-mode write. */
  lemma CurveWritesAppend(a: seq<Action>, b: seq<Action>)
    requires EndsOpen(a)
    ensures CurveWrites(a + b) == CurveWrites(a) + CurveWrites(b)
  {
    CurveWritesUpToAppend(a, b, |b|);
  }

  /** The curve writes of one event: the curve's duty for a plausible
      reading, nothing otherwise (a reconnect writes only the safe duty). */
  lemma StepCurveWrites(fan: real -> U8, link: Link, e: Event)
    ensures CurveWrites(Step(fan, link, e).actions)
         == if e.Decoded? && ValidReading(e.temp) then [fan(e.temp)] else []
  {
    var acts := Step(fan, link, e).actions;
    match e
    case IterationStart =>
      if link.alive + 1 >= ReconnectThreshold {
        assert acts == [ResetDevice, WriteControlMode, WritePwm(ControlCurve.SafePwm)];
        assert !IsCurveWrite(acts, 0) && !IsCurveWrite(acts, 1) && !IsCurveWrite(acts, 2);
        assert CurveWritesUpTo(acts, 0) == [];
        assert CurveWritesUpTo(acts, 1) == [];
        assert CurveWritesUpTo(acts, 2) == [];
        assert CurveWritesUpTo(acts, 3) == [];
      }
    case Decoded(temp) =>
      if ValidReading(temp) {
        var w := WritePwm(fan(temp));
        if link.logDivider + 1 >= LogInterval {
          var l := LogReading(temp, fan(temp));
          assert acts == [l, w];
          assert !IsCurveWrite(acts, 0) && IsCurveWrite(acts, 1);
          assert CurveWritesUpTo(acts, 0) == [];
          assert CurveWritesUpTo(acts, 1) == [];
          assert CurveWritesUpTo(acts, 2) == [fan(temp)];
        } else {
          assert acts == [w];
          assert IsCurveWrite(acts, 0);
          assert CurveWritesUpTo(acts, 0) == [];
          assert CurveWritesUpTo(acts, 1) == [fan(temp)];
        }
      }
  }



  /** Every duty the curve writes belongs to a plausible reading, and every
      plausible reading gets its duty written: the curve writes are `fan`
      of the valid temperatures, one for one and in order. */
  lemma {:induction false} CurveWritesFollowReadings(fan: real -> U8, start: Link, events: seq<Event>)
    ensures DutiesOf(CurveWrites(Run(fan, start, events).actions), fan, ValidTemps(events))
    decreases |events|
  {
    if |events| > 0 {
      var front := events[..|events| - 1];
      var e := events[|events| - 1];
      CurveWritesFollowReadings(fan, start, front);
      var prev := Run(fan, start, front);
      var last := Step(fan, prev.link, e);
      assert Run(fan, start, events).actions == prev.actions + last.actions;
      CurveWritesAppend(prev.actions, last.actions);
      StepCurveWrites(fan, prev.link, e);
      var w, ts := CurveWrites(prev.actions), ValidTemps(front);
      if e.Decoded? && ValidReading(e.temp) {
        var w2, ts2 := w + [fan(e.temp)], ts + [e.temp];
        assert ValidTemps(events) == ts2;
        forall i | 0 <= i < |w2| ensures w2[i] == fan(ts2[i]) {
          if i < |w| {
            assert w2[i] == w[i] && ts2[i] == ts[i];
          }
        }
      } else {
        assert ValidTemps(events) == ts;
        assert w + [] == w;
      }
    }
  }

  /** Iteration starts since the last decoded record (all of them when
      there is none). */
  function SilentIterations(events: seq<Event>): nat {
    if |events| == 0 then 0
    else if events[|events| - 1].Decoded? then 0
    else SilentIterations(events[..|events| - 1]) + 1
  }

  predicate HasDecoded(events: seq<Event>) {
    exists i :: 0 <= i < |events| && events[i].Decoded?
  }

  /** The watchdog counter is the number of silent iterations since the
      last decoded record (or since `start`), modulo the threshold. */
  lemma {:induction false} AliveCountsSilence(fan: real -> U8, start: Link, events: seq<Event>)
    requires Valid(start)
    ensures Run(fan, start, events).link.alive
         == ((if HasDecoded(events) then 0 else start.alive) + SilentIterations(events)) % ReconnectThreshold
    decreases |events|
  {
    if |events| > 0 {
      var front := events[..|events| - 1];
      AliveCountsSilence(fan, start, front);
      var prev := Run(fan, start, front);
      var e := events[|events| - 1];
      assert Run(fan, start, events).link == Step(fan, prev.link, e).link;
      HasDecodedLast(events);
      if e.IterationStart? {
        var x := (if HasDecoded(front) then 0 else start.alive) + SilentIterations(front);
        assert (if HasDecoded(events) then 0 else start.alive) + SilentIterations(events) == x + 1;
        SilentStep(fan, prev.link);
        AliveStep(x, prev.link.alive, Run(fan, start, events).link.alive);
      }
    }
  }

  /** One more silent iteration moves the counter on by one modulo the
      threshold. */
  lemma AliveStep(x: nat, alive: nat, next: nat)
    requires alive == x % ReconnectThreshold
    requires next == if alive + 1 >= ReconnectThreshold then 0 else alive + 1
    ensures next == (x + 1) % ReconnectThreshold
  {
  }

  /** A record was decoded in `events` iff one was before the last event or
      the last event is one. */
  lemma HasDecodedLast(events: seq<Event>)
    requires |events| > 0
    ensures HasDecoded(events) <==> HasDecoded(events[..|events| - 1]) || events[|events| - 1].Decoded?
  {
    var front := events[..|events| - 1];
    if HasDecoded(events) && !events[|events| - 1].Decoded? {
      var i :| 0 <= i < |events| && events[i].Decoded?;
      assert front[i] == events[i];
    }
    if HasDecoded(front) {
      var i :| 0 <= i < |front| && front[i].Decoded?;
      assert events[i] == front[i];
    }
  }

  /** Counting one more modulo the threshold wraps exactly at it. */
  lemma SuccessorMod(x: nat)
    ensures (x + 1) % ReconnectThreshold
         == if x % ReconnectThreshold + 1 >= ReconnectThreshold then 0 else x % ReconnectThreshold + 1
  {
  }

  /** One more silent iteration: the resets so far and the counter, as
      quotient and remainder by the threshold, move on by one. */
  lemma SilentStepCount(x: nat, resets: nat, alive: nat, moreResets: nat, nextAlive: nat)
    requires resets == x / ReconnectThreshold && alive == x % ReconnectThreshold
    requires moreResets == (if alive + 1 >= ReconnectThreshold then 1 else 0)
    requires nextAlive == (if alive + 1 >= ReconnectThreshold then 0 else alive + 1)
    ensures resets + moreResets == (x + 1) / ReconnectThreshold
    ensures nextAlive == (x + 1) % ReconnectThreshold
  {
  }

  /** After a (re)connect, the iteration start that finds twenty silent
      iterations behind it (the current one included) is exactly the one
      that resets the device. */
  lemma ReconnectExactlyAfterSilence(fan: real -> U8, events: seq<Event>)
    ensures var link := Run(fan, Connected, events).link;
      (ResetDevice in Step(fan, link, IterationStart).actions)
        <==> (SilentIterations(events) + 1) % ReconnectThreshold == 0
  {
    var link := Run(fan, Connected, events).link;
    var silent := SilentIterations(events);
    AliveCountsSilence(fan, Connected, events);
    assert link.alive == silent % ReconnectThreshold;
    SuccessorMod(silent);
    assert (ResetDevice in Step(fan, link, IterationStart).actions) <==> link.alive + 1 >= ReconnectThreshold;
  }

  /** n iteration starts without a decoded record reset the device
      (alive + n) / 20 times: from a fresh connection, once every twenty. */
  lemma {:induction false} SilenceResetCount(fan: real -> U8, start: Link, events: seq<Event>)
    requires Valid(start)
    requires forall i :: 0 <= i < |events| ==> events[i] == IterationStart
    ensures Resets(Run(fan, start, events).actions) == (start.alive + |events|) / ReconnectThreshold
    ensures Run(fan, start, events).link.alive == (start.alive + |events|) % ReconnectThreshold
    decreases |events|
  {
    if |events| > 0 {
      var front := events[..|events| - 1];
      SilenceResetCount(fan, start, front);
      var prev := Run(fan, start, front);
      var last := Step(fan, prev.link, IterationStart);
      assert events[|events| - 1] == IterationStart;
      assert Run(fan, start, events) == Outcome(last.link, prev.actions + last.actions);
      SilentStep(fan, prev.link);
      ResetsAppend(prev.actions, last.actions);
      var x := start.alive + |front|;
      assert start.alive + |events| == x + 1;
      SilentStepCount(x, Resets(prev.actions), prev.link.alive, Resets(last.actions), last.link.alive);
    }
  }

  /** Resets of two action runs add up. */
  lemma ResetsAppend(a: seq<Action>, b: seq<Action>)
    ensures Resets(a + b) == Resets(a) + Resets(b)
  {
    assert multiset(a + b) == multiset(a) + multiset(b);
  }

  /** One silent iteration resets exactly when it brings the counter to
      the threshold, and otherwise counts it. */
  lemma SilentStep(fan: real -> U8, link: Link)
    ensures Resets(Step(fan, link, IterationStart).actions) == if link.alive + 1 >= ReconnectThreshold then 1 else 0
    ensures Step(fan, link, IterationStart).link.alive == if link.alive + 1 >= ReconnectThreshold then 0 else link.alive + 1
  {
    if link.alive + 1 >= ReconnectThreshold {
      assert Step(fan, link, IterationStart).actions == [ResetDevice, WriteControlMode, WritePwm(ControlCurve.SafePwm)];
    }
  }

  /** The logs of one event: one exactly when a plausible reading brings
      the divider to thirty. */
  lemma StepLogs(fan: real -> U8, link: Link, e: Event)
    ensures Logs(Step(fan, link, e).actions)
         == if e.Decoded? && ValidReading(e.temp) && link.logDivider + 1 >= LogInterval then 1 else 0
  {
    var acts := Step(fan, link, e).actions;
    match e
    case IterationStart =>
      if link.alive + 1 >= ReconnectThreshold {
        var a2 := [ResetDevice, WriteControlMode];
        assert acts == a2 + [WritePwm(ControlCurve.SafePwm)];
        assert acts[..2] == a2 && a2[..1] == [ResetDevice] && [ResetDevice][..0] == [];
        assert Logs(a2) == Logs([ResetDevice]) == 0;
      }
    case Decoded(temp) =>
      if ValidReading(temp) {
        var w := WritePwm(fan(temp));
        if link.logDivider + 1 >= LogInterval {
          var l := LogReading(temp, fan(temp));
          assert acts == [l, w] && acts[..1] == [l] && [l][..0] == [];
          assert Logs([l]) == 1;
        } else {
          assert acts == [w] && acts[..0] == [];
        }
      }
  }


  /** Within one connection (no reset), the n plausible readings log
      (log_divider + n) / 30 of them and leave the divider at
      (log_divider + n) mod 30; iteration starts and implausible readings
      leave it alone. */
  lemma ReadingLogCount(fan: real -> U8, start: Link, events: seq<Event>)
    requires Valid(start)
    requires Resets(Run(fan, start, events).actions) == 0
    ensures Logs(Run(fan, start, events).actions) == (start.logDivider + |ValidTemps(events)|) / LogInterval
    ensures Run(fan, start, events).link.logDivider == (start.logDivider + |ValidTemps(events)|) % LogInterval
  {
    ReadingLogBalance(fan, start, events);
    var r := Run(fan, start, events);
    QuotientAndRemainder(start.logDivider + |ValidTemps(events)|, Logs(r.actions), r.link.logDivider);
  }

  /** Within one connection, every plausible reading is accounted for:
      the divider it started from plus the readings equals thirty per
      logged reading plus the divider it ends at. */
  lemma {:induction false} ReadingLogBalance(fan: real -> U8, start: Link, events: seq<Event>)
    requires Valid(start)
    requires Resets(Run(fan, start, events).actions) == 0
    ensures start.logDivider + |ValidTemps(events)|
         == LogInterval * Logs(Run(fan, start, events).actions) + Run(fan, start, events).link.logDivider
    decreases |events|
  {
    if |events| > 0 {
      var front := events[..|events| - 1];
      var e := events[|events| - 1];
      LastEventLogs(fan, start, events, front, e);
      ReadingLogBalance(fan, start, front);
      var prev := Run(fan, start, front);
      var next := Run(fan, start, events);
      LogBalanceStep(start.logDivider + |ValidTemps(front)|, e.Decoded? && ValidReading(e.temp),
                     start.logDivider + |ValidTemps(events)|, Logs(prev.actions), prev.link.logDivider,
                     Logs(next.actions), next.link.logDivider);
    }
  }

  /** Without a reset, the last event adds one log exactly when it is a
      plausible reading that brings the divider to thirty, and moves the
      divider on exactly when it is a plausible reading. */
  lemma LastEventLogs(fan: real -> U8, start: Link, events: seq<Event>, front: seq<Event>, e: Event)
    requires |events| > 0 && front == events[..|events| - 1] && e == events[|events| - 1]
    requires Resets(Run(fan, start, events).actions) == 0
    ensures Resets(Run(fan, start, front).actions) == 0
    ensures Logs(Run(fan, start, events).actions)
         == Logs(Run(fan, start, front).actions)
            + (if e.Decoded? && ValidReading(e.temp) && Run(fan, start, front).link.logDivider + 1 >= LogInterval then 1 else 0)
    ensures Run(fan, start, events).link.logDivider
         == if e.Decoded? && ValidReading(e.temp) then
              (if Run(fan, start, front).link.logDivider + 1 >= LogInterval then 0 else Run(fan, start, front).link.logDivider + 1)
            else Run(fan, start, front).link.logDivider
    ensures |ValidTemps(events)| == |ValidTemps(front)| + (if e.Decoded? && ValidReading(e.temp) then 1 else 0)
  {
    var prev := Run(fan, start, front);
    var last := Step(fan, prev.link, e);
    assert Run(fan, start, events) == Outcome(last.link, prev.actions + last.actions);
    ResetsAppend(prev.actions, last.actions);
    assert ResetDevice !in last.actions by {
      assert ResetDevice !in multiset(last.actions);
    }
    LogsAppend(prev.actions, last.actions);
    StepLogs(fan, prev.link, e);
    StepDivider(fan, prev.link, e);
    var valid := e.Decoded? && ValidReading(e.temp);
    assert ValidTemps(events) == ValidTemps(front) + (if valid then [e.temp] else []);
  }

  /** Without a reset, one event moves the log divider on exactly when it
      is a plausible reading. */
  lemma StepDivider(fan: real -> U8, link: Link, e: Event)
    requires ResetDevice !in Step(fan, link, e).actions
    ensures Step(fan, link, e).link.logDivider
         == if e.Decoded? && ValidReading(e.temp) then (if link.logDivider + 1 >= LogInterval then 0 else link.logDivider + 1)
            else link.logDivider
  {
  }

  /** One more event keeps the balance: a plausible reading either moves
      the divider on by one or, at thirty, logs and starts it again. */
  lemma LogBalanceStep(x: nat, valid: bool, y: nat, logs: nat, divider: nat, nextLogs: nat, nextDivider: nat)
    requires y == x + (if valid then 1 else 0)
    requires x == LogInterval * logs + divider && divider < LogInterval
    requires nextLogs == logs + (if valid && divider + 1 >= LogInterval then 1 else 0)
    requires nextDivider == if valid then (if divider + 1 >= LogInterval then 0 else divider + 1) else divider
    ensures y == LogInterval * nextLogs + nextDivider
  {
  }

  /** A count split as thirty per log plus a divider below thirty is split
      by quotient and remainder. */
  lemma QuotientAndRemainder(n: nat, q: nat, r: nat)
    requires n == LogInterval * q + r && r < LogInterval
    ensures q == n / LogInterval && r == n % LogInterval
  {
  }

  /* ---------------------------------------------------------------------- */
  /* Output gating                                                          */
  /* ---------------------------------------------------------------------- */

  /** A reset at `i` is followed at once by manual mode and the safe duty. */
  predicate ResetThenSafe(acts: seq<Action>, i: nat)
    requires i < |acts|
  {
    acts[i] == ResetDevice ==>
      i + 2 < |acts| && acts[i + 1] == WriteControlMode && acts[i + 2] == WritePwm(ControlCurve.SafePwm)
  }

  /** Every reset is followed at once by manual mode and the safe duty, so
      a new connection writes 255 before any decoded value. */
  lemma {:induction false} ResetWritesSafeDutyFirst(fan: real -> U8, start: Link, events: seq<Event>)
    ensures forall i :: 0 <= i < |Run(fan, start, events).actions| ==> ResetThenSafe(Run(fan, start, events).actions, i)
    decreases |events|
  {
    if |events| > 0 {
      var front := events[..|events| - 1];
      ResetWritesSafeDutyFirst(fan, start, front);
      var prev := Run(fan, start, front);
      var last := Step(fan, prev.link, events[|events| - 1]);
      var acts := prev.actions + last.actions;
      assert Run(fan, start, events).actions == acts;
      forall i | 0 <= i < |acts|
        ensures ResetThenSafe(acts, i)
      {
        if i < |prev.actions| {
          assert acts[i] == prev.actions[i];
          if acts[i] == ResetDevice {
            assert ResetThenSafe(prev.actions, i);
            assert acts[i + 1] == prev.actions[i + 1];
            assert acts[i + 2] == prev.actions[i + 2];
          }
        } else if acts[i] == ResetDevice {
          var k := i - |prev.actions|;
          assert last.actions[k] == ResetDevice;
          assert last.actions == [ResetDevice, WriteControlMode, WritePwm(ControlCurve.SafePwm)];
          assert k == 0;
          assert acts[i + 1] == last.actions[1];
          assert acts[i + 2] == last.actions[2];
        }
      }
    }
  }

  /** Inside the loop manual mode is selected only right after a reset. */
  lemma {:induction false} ControlModeFollowsReset(fan: real -> U8, start: Link, events: seq<Event>)
    ensures forall k :: 0 <= k < |Run(fan, start, events).actions| && Run(fan, start, events).actions[k] == WriteControlMode ==>
      k > 0 && Run(fan, start, events).actions[k - 1] == ResetDevice
    decreases |events|
  {
    if |events| > 0 {
      var front := events[..|events| - 1];
      ControlModeFollowsReset(fan, start, front);
      var prev := Run(fan, start, front);
      var last := Step(fan, prev.link, events[|events| - 1]);
      var acts := prev.actions + last.actions;
      assert Run(fan, start, events).actions == acts;
      forall k | 0 <= k < |acts| && acts[k] == WriteControlMode
        ensures k > 0 && acts[k - 1] == ResetDevice
      {
        if k < |prev.actions| {
          assert prev.actions[k] == WriteControlMode;
          assert acts[k - 1] == prev.actions[k - 1];
        } else {
          var j := k - |prev.actions|;
          assert last.actions[j] == WriteControlMode;
          assert last.actions == [ResetDevice, WriteControlMode, WritePwm(ControlCurve.SafePwm)];
          assert j == 1;
          assert acts[k - 1] == last.actions[0];
        }
      }
    }
  }

  /** For each action of the run, the index of the event whose step
      produced it: the events' action blocks are laid out in order. */
  function Origins(fan: real -> U8, start: Link, events: seq<Event>): (r: seq<nat>)
    ensures |r| == |Run(fan, start, events).actions|
    ensures forall i :: 0 <= i < |r| ==> r[i] < |events|
    ensures forall i, k :: 0 <= i <= k < |r| ==> r[i] <= r[k]
    decreases |events|
  {
    if |events| == 0 then []
    else
      var front := events[..|events| - 1];
      var prev := Origins(fan, start, front);
      var run := Run(fan, start, front);
      var last := Step(fan, run.link, events[|events| - 1]);
      var mark := seq(|last.actions|, _ => |events| - 1);
      var r := prev + mark;
      assert |r| == |Run(fan, start, events).actions| by {
        assert Run(fan, start, events).actions == run.actions + last.actions;
      }
      OriginsGrow(prev, mark, |events|);
      r
  }

  /** Appending a block of actions of event `n - 1` to origins below
      `n - 1` keeps them below `n` and in order. */
  lemma OriginsGrow(prev: seq<nat>, mark: seq<nat>, n: nat)
    requires n > 0
    requires forall i :: 0 <= i < |prev| ==> prev[i] < n - 1
    requires forall i, k :: 0 <= i <= k < |prev| ==> prev[i] <= prev[k]
    requires forall i :: 0 <= i < |mark| ==> mark[i] == n - 1
    ensures forall i :: 0 <= i < |prev + mark| ==> (prev + mark)[i] < n
    ensures forall i, k :: 0 <= i <= k < |prev + mark| ==> (prev + mark)[i] <= (prev + mark)[k]
  {
    var r := prev + mark;
    forall i | 0 <= i < |r| ensures r[i] < n && (i >= |prev| ==> r[i] == n - 1) {
      if i < |prev| { assert r[i] == prev[i]; } else { assert r[i] == mark[i - |prev|]; }
    }
    forall i, k | 0 <= i <= k < |r| ensures r[i] <= r[k] {
      if k < |prev| { assert r[i] == prev[i] && r[k] == prev[k]; }
    }
  }

  /** A duty write at `i` is either the safe duty right after manual mode
      is selected, or the fan curve's value at the plausible temperature
      decoded by the event `origin` that produced it. */
  predicate GatedWrite(fan: real -> U8, events: seq<Event>, origin: nat, acts: seq<Action>, i: nat)
    requires i < |acts| && origin < |events|
  {
    acts[i].WritePwm? ==>
      || (acts[i].duty == ControlCurve.SafePwm && i > 0 && acts[i - 1] == WriteControlMode)
      || (events[origin].Decoded? && ValidReading(events[origin].temp) && acts[i].duty == fan(events[origin].temp))
  }

  /** A duty reaches the fan only as the safe value right after manual mode
      is selected, or as the curve's value for the decoded temperature, in
      (0, 100], of the very event that wrote it. */
  lemma {:induction false} PwmWritesAreGated(fan: real -> U8, start: Link, events: seq<Event>)
    ensures forall i :: 0 <= i < |Run(fan, start, events).actions| ==>
      GatedWrite(fan, events, Origins(fan, start, events)[i], Run(fan, start, events).actions, i)
    decreases |events|
  {
    if |events| > 0 {
      var front := events[..|events| - 1];
      PwmWritesAreGated(fan, start, front);
      var n := |Run(fan, start, front).actions|;
      forall i | 0 <= i < |Run(fan, start, events).actions|
        ensures GatedWrite(fan, events, Origins(fan, start, events)[i], Run(fan, start, events).actions, i)
      {
        if i < n {
          GatedFromFront(fan, start, events, i);
        } else {
          GatedFromLast(fan, start, events, i);
        }
      }
    }
  }

  /** A write of the run before the last event keeps its origin and its
      justification. */
  lemma GatedFromFront(fan: real -> U8, start: Link, events: seq<Event>, i: nat)
    requires |events| > 0
    requires i < |Run(fan, start, events[..|events| - 1]).actions|
    requires GatedWrite(fan, events[..|events| - 1], Origins(fan, start, events[..|events| - 1])[i],
                        Run(fan, start, events[..|events| - 1]).actions, i)
    ensures i < |Run(fan, start, events).actions|
    ensures GatedWrite(fan, events, Origins(fan, start, events)[i], Run(fan, start, events).actions, i)
  {
    var front := events[..|events| - 1];
    var prev := Run(fan, start, front);
    var last := Step(fan, prev.link, events[|events| - 1]);
    var acts := Run(fan, start, events).actions;
    var org, orgFront := Origins(fan, start, events), Origins(fan, start, front);
    assert acts == prev.actions + last.actions;
    assert org == orgFront + seq(|last.actions|, _ => |events| - 1);
    assert acts[i] == prev.actions[i] && org[i] == orgFront[i];
    assert events[org[i]] == front[org[i]];
    if i > 0 {
      assert acts[i - 1] == prev.actions[i - 1];
    }
  }

  /** A write of the last event is the safe duty of a reconnect or the
      curve's duty for that event's own reading. */
  lemma GatedFromLast(fan: real -> U8, start: Link, events: seq<Event>, i: nat)
    requires |events| > 0
    requires |Run(fan, start, events[..|events| - 1]).actions| <= i < |Run(fan, start, events).actions|
    ensures GatedWrite(fan, events, Origins(fan, start, events)[i], Run(fan, start, events).actions, i)
  {
    var front := events[..|events| - 1];
    var prev := Run(fan, start, front);
    var e := events[|events| - 1];
    var last := Step(fan, prev.link, e);
    var acts := Run(fan, start, events).actions;
    var org := Origins(fan, start, events);
    assert acts == prev.actions + last.actions;
    assert org == Origins(fan, start, front) + seq(|last.actions|, _ => |events| - 1);
    var k := i - |prev.actions|;
    assert acts[i] == last.actions[k] && org[i] == |events| - 1;
    if acts[i].WritePwm? {
      if e.IterationStart? {
        assert last.actions == [ResetDevice, WriteControlMode, WritePwm(ControlCurve.SafePwm)];
        assert k == 2;
        assert acts[i - 1] == last.actions[1];
      } else {
        assert ValidReading(e.temp) && acts[i].duty == fan(e.temp);
      }
    }
  }

  /* ---------------------------------------------------------------------- */
  /* The host program                                                       */
  /* ---------------------------------------------------------------------- */

  /** The host program over the events of one run: the configuration is
      parsed before anything else (a bad one ends the program with no
      write), the first connect selects manual mode and the safe duty, and
      the loop then runs with the parsed curve. */
  function Host(config: string, events: seq<Event>): (r: Result<seq<Action>, ControlCurve.CurveError>)
    ensures r.Success? <==> ControlCurve.FromString(config).Success?
    ensures r.Failure? ==> r.error == ControlCurve.FromString(config).error
    ensures r.Success? ==> |r.value| >= 2 && r.value[0] == WriteControlMode && r.value[1] == WritePwm(ControlCurve.SafePwm)
  {
    match ControlCurve.FromString(config)
    case Failure(err) => Failure(err)
    case Success(points) => Success(Program(points, events))
  }

  /** The actions of the host program once the curve is parsed. */
  function Program(points: seq<ControlCurve.ControlPoint>, events: seq<Event>): (r: seq<Action>)
    requires |points| >= 1
    ensures |r| >= 2 && r[0] == WriteControlMode && r[1] == WritePwm(ControlCurve.SafePwm)
  {
    ConnectActions + Run(CurveFan(points), Connected, events).actions
  }

  /** Apart from the safe duty of each (re)connect, the duties the host
      writes are exactly the configured curve at the plausible decoded
      temperatures, one for one and in order. */
  lemma HostWritesCurveDuties(config: string, events: seq<Event>)
    requires ControlCurve.FromString(config).Success?
    ensures Host(config, events).Success?
    ensures |CurveWrites(Host(config, events).value)| == |ValidTemps(events)|
    ensures forall i :: 0 <= i < |ValidTemps(events)| ==>
      && ValidReading(ValidTemps(events)[i])
      && CurveWrites(Host(config, events).value)[i]
         == ControlCurve.GetPwmFromTemp(ControlCurve.FromString(config).value, ValidTemps(events)[i])
  {
    var points := ControlCurve.FromString(config).value;
    assert Host(config, events).value == Program(points, events);
    ProgramWritesCurveDuties(points, events);
  }

  lemma ProgramWritesCurveDuties(points: seq<ControlCurve.ControlPoint>, events: seq<Event>)
    requires |points| >= 1
    ensures |CurveWrites(Program(points, events))| == |ValidTemps(events)|
    ensures forall i :: 0 <= i < |ValidTemps(events)| ==>
      CurveWrites(Program(points, events))[i] == ControlCurve.GetPwmFromTemp(points, ValidTemps(events)[i])
  {
    var fan := CurveFan(points);
    var runActs := Run(fan, Connected, events).actions;
    var w, ts := CurveWrites(runActs), ValidTemps(events);
    assert CurveWrites(Program(points, events)) == w by {
      assert !IsCurveWrite(ConnectActions, 0) && !IsCurveWrite(ConnectActions, 1);
      assert CurveWritesUpTo(ConnectActions, 1) == [];
      assert CurveWrites(ConnectActions) == [];
      CurveWritesAppend(ConnectActions, runActs);
    }
    CurveWritesFollowReadings(fan, Connected, events);
    forall i | 0 <= i < |ts| ensures w[i] == ControlCurve.GetPwmFromTemp(points, ts[i]) {
      assert w[i] == fan(ts[i]);
    }
  }

  /** Every connection of the host program, the first included, selects
      manual mode and then writes the safe duty before anything else. */
  lemma HostConnectionsStartSafe(config: string, events: seq<Event>)
    requires ControlCurve.FromString(config).Success?
    ensures Host(config, events).Success?
    ensures forall i :: 0 <= i < |Host(config, events).value| ==>
      Host(config, events).value[i] == WriteControlMode ==>
        i + 1 < |Host(config, events).value| && Host(config, events).value[i + 1] == WritePwm(ControlCurve.SafePwm)
  {
    var points := ControlCurve.FromString(config).value;
    assert Host(config, events).value == Program(points, events);
    ProgramConnectionsStartSafe(points, events);
  }

  lemma ProgramConnectionsStartSafe(points: seq<ControlCurve.ControlPoint>, events: seq<Event>)
    requires |points| >= 1
    ensures forall i :: 0 <= i < |Program(points, events)| && Program(points, events)[i] == WriteControlMode ==>
      i + 1 < |Program(points, events)| && Program(points, events)[i + 1] == WritePwm(ControlCurve.SafePwm)
  {
    ConnectionsStartSafe(CurveFan(points), events);
  }

  /** The connect writes followed by the loop, for any fan curve: every
      control-mode write is followed at once by the safe duty. */
  lemma ConnectionsStartSafe(fan: real -> U8, events: seq<Event>)
    ensures forall i :: 0 <= i < |ConnectActions + Run(fan, Connected, events).actions|
                        && (ConnectActions + Run(fan, Connected, events).actions)[i] == WriteControlMode ==>
      && i + 1 < |ConnectActions + Run(fan, Connected, events).actions|
      && (ConnectActions + Run(fan, Connected, events).actions)[i + 1] == WritePwm(ControlCurve.SafePwm)
  {
    var runActs := Run(fan, Connected, events).actions;
    var acts := ConnectActions + runActs;
    ResetWritesSafeDutyFirst(fan, Connected, events);
    ControlModeFollowsReset(fan, Connected, events);
    forall i | 0 <= i < |acts| && acts[i] == WriteControlMode
      ensures i + 1 < |acts| && acts[i + 1] == WritePwm(ControlCurve.SafePwm)
    {
      if i >= 2 {
        var k := i - 2;
        assert acts[i] == runActs[k];
        assert k > 0 && runActs[k - 1] == ResetDevice;
        assert ResetThenSafe(runActs, k - 1);
        assert acts[i + 1] == runActs[k + 1];
      } else {
        assert i == 0;
      }
    }
  }
}
