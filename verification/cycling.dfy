/**
  The cycling state of the clock: which slot (`active`) and which time
  format (`active_time_format`) are shown, and when the next automatic slot
  change is due (`_cycle_time`). It changes on button clicks and, at the
  start of every poll, when the cycle timer has run out. Time is whole
  seconds.
 */
module Cycling {
  import opened Python
  import opened Settings

  datatype State = State(active: int, activeTimeFormat: int, cycleTime: int)

  /** Both indices point into their lists. */
  predicate InRange(c: Config, st: State) {
    0 <= st.active < |c.formats| && 0 <= st.activeTimeFormat < |c.formatTimes|
  }

  /** `_change_active`: move the slot by `diff`, wrapping with Python's `%`,
      which raises when there are no slots. */
  function ChangeActive(c: Config, st: State, diff: int): (r: Result<State>)
    ensures r.Failure? <==> |c.formats| == 0
    ensures r.Failure? ==> r.error == ZeroDivisionError
    ensures r.Success? ==> 0 <= r.value.active < |c.formats|
    ensures r.Success? ==> (r.value.active - (st.active + diff)) % |c.formats| == 0
    ensures r.Success? ==> r.value.activeTimeFormat == st.activeTimeFormat
                           && r.value.cycleTime == st.cycleTime
  {
    if |c.formats| == 0 then Failure(ZeroDivisionError)
    else
      var n := |c.formats|;
      var a := FloorMod(st.active + diff, n);
      MultipleMod(st.active + diff, a, n, FloorDiv(st.active + diff, n));
      Success(st.(active := a))
  }

  /** The time-format button's step: count up, back to 0 at the end. */
  function NextTimeFormat(c: Config, st: State): (r: State)
    ensures r.active == st.active && r.cycleTime == st.cycleTime
    ensures 0 <= st.activeTimeFormat < |c.formatTimes| ==>
              r.activeTimeFormat == (st.activeTimeFormat + 1) % |c.formatTimes|
  {
    var next := st.activeTimeFormat + 1;
    st.(activeTimeFormat := if next >= |c.formatTimes| then 0 else next)
  }

  /** `on_click`: the reset button first, then the time-format button, then
      the format button; any other button changes nothing. */
  function OnClick(c: Config, st: State, button: int, now: int): (r: Result<State>)
    ensures button == c.buttons.reset ==>
              && r.Success?
              && r.value.active == 0
              && r.value.cycleTime == now + c.cycle
              && r.value.activeTimeFormat == st.activeTimeFormat
    ensures button != c.buttons.reset && button == c.buttons.changeTimeFormat ==>
              && r.Success?
              && r.value.active == st.active
              && r.value.cycleTime == st.cycleTime
              && (0 <= st.activeTimeFormat < |c.formatTimes| ==>
                    r.value.activeTimeFormat == (st.activeTimeFormat + 1) % |c.formatTimes|)
    ensures button != c.buttons.reset && button != c.buttons.changeTimeFormat
            && button == c.buttons.changeFormat ==>
              && (r.Failure? <==> |c.formats| == 0)
              && (r.Success? ==>
                    && r.value.activeTimeFormat == st.activeTimeFormat
                    && r.value.cycleTime == st.cycleTime
                    && (0 <= st.active < |c.formats| ==>
                          r.value.active == (st.active + 1) % |c.formats|))
    ensures button !in {c.buttons.reset, c.buttons.changeTimeFormat, c.buttons.changeFormat} ==>
              r == Success(st)
  {
    if button == c.buttons.reset then
      Success(st.(active := 0, cycleTime := now + c.cycle))
    else if button == c.buttons.changeTimeFormat then
      Success(NextTimeFormat(c, st))
    else if button == c.buttons.changeFormat then
      ChangeActive(c, st, 1)
    else
      Success(st)
  }

  /** The cycling check at the start of `clock`: when cycling is on and the
      timer has run out, show the next slot and re-arm the timer. */
  function AutoAdvance(c: Config, st: State, now: int): (r: Result<State>)
    ensures c.cycle == 0 || now < st.cycleTime ==> r == Success(st)
    ensures c.cycle != 0 && now >= st.cycleTime ==>
              && (r.Failure? <==> |c.formats| == 0)
              && (r.Success? ==>
                    && r.value.cycleTime == now + c.cycle
                    && r.value.activeTimeFormat == st.activeTimeFormat
                    && (0 <= st.active < |c.formats| ==>
                          r.value.active == (st.active + 1) % |c.formats|))
  {
    if c.cycle != 0 && now >= st.cycleTime then
      var next :- ChangeActive(c, st, 1);
      Success(next.(cycleTime := now + c.cycle))
    else
      Success(st)
  }

  /** Clicks and cycling never move an index out of range. */
  lemma ClickKeepsInRange(c: Config, st: State, button: int, now: int)
    requires InRange(c, st)
    ensures OnClick(c, st, button, now).Success?
    ensures InRange(c, OnClick(c, st, button, now).value)
  {
  }

  lemma AdvanceKeepsInRange(c: Config, st: State, now: int)
    requires InRange(c, st)
    ensures AutoAdvance(c, st, now).Success?
    ensures InRange(c, AutoAdvance(c, st, now).value)
  {
  }

  /** A click event: the button pressed and the time it arrived. */
  datatype Click = Click(button: int, at: int)

  /** A series of clicks handled one after the other. */
  function Clicks(c: Config, st: State, events: seq<Click>): Result<State>
    decreases |events|
  {
    if |events| == 0 then Success(st)
    else
      var next :- OnClick(c, st, events[0].button, events[0].at);
      Clicks(c, next, events[1..])
  }

  lemma ClicksStep(c: Config, st: State, events: seq<Click>, next: State)
    requires |events| > 0 && OnClick(c, st, events[0].button, events[0].at) == Success(next)
    ensures Clicks(c, st, events) == Clicks(c, next, events[1..])
  {
  }

  /** Every event in the series is a press of `button`. */
  predicate AllPresses(events: seq<Click>, button: int)
    decreases |events|
  {
    |events| == 0 || (events[0].button == button && AllPresses(events[1..], button))
  }

  /** Pressing the time-format button k times moves k formats on, modulo
      the number of formats, and touches nothing else. */
  lemma {:induction false} TimeFormatPresses(c: Config, st: State, events: seq<Click>)
    requires 0 <= st.activeTimeFormat < |c.formatTimes|
    requires c.buttons.changeTimeFormat != c.buttons.reset
    requires AllPresses(events, c.buttons.changeTimeFormat)
    ensures Clicks(c, st, events) ==
            Success(st.(activeTimeFormat := (st.activeTimeFormat + |events|) % |c.formatTimes|))
    decreases |events|
  {
    var m := |c.formatTimes|;
    var a := st.activeTimeFormat;
    if |events| > 0 {
      var next := st.(activeTimeFormat := (a + 1) % m);
      var rest := events[1..];
      assert Clicks(c, st, events) == Clicks(c, next, rest) by {
        assert OnClick(c, st, events[0].button, events[0].at) == Success(next);
        ClicksStep(c, st, events, next);
      }
      TimeFormatPresses(c, next, rest);
      assert ((a + 1) % m + |rest|) % m == (a + |events|) % m by {
        ModShift(a + 1, |rest|, m);
      }
    }
  }

  /** M presses of the time-format button, with M formats, come back to
      the format shown before. */
  lemma TimeFormatRoundTrip(c: Config, st: State, events: seq<Click>)
    requires 0 <= st.activeTimeFormat < |c.formatTimes| == |events|
    requires c.buttons.changeTimeFormat != c.buttons.reset
    requires AllPresses(events, c.buttons.changeTimeFormat)
    ensures Clicks(c, st, events) == Success(st)
  {
    TimeFormatPresses(c, st, events);
    var m := |c.formatTimes|;
    assert (st.activeTimeFormat + m) % m == st.activeTimeFormat by {
      DivUnique(st.activeTimeFormat + m, m, 1, st.activeTimeFormat);
    }
  }

  /** Polls once a second at `from + 1`, ..., `from + count`, applying
      only the cycling check of each. */
  function EverySecond(c: Config, st: State, from: int, count: nat): Result<State>
  {
    if count == 0 then Success(st)
    else
      var prev :- EverySecond(c, st, from, count - 1);
      AutoAdvance(c, prev, from + count)
  }

  lemma DivStep(e: int, k: int)
    requires e >= 1 && k > 0
    ensures e / k == (if e % k == 0 then (e - 1) / k + 1 else (e - 1) / k)
    ensures e % k == 0 <==> e == ((e - 1) / k + 1) * k
    ensures e <= ((e - 1) / k + 1) * k
  {
    var q := (e - 1) / k;
    var r := (e - 1) % k;
    assert e - 1 == q * k + r && 0 <= r < k;
    if r + 1 == k {
      assert e == (q + 1) * k + 0;
      DivUnique(e, k, q + 1, 0);
    } else {
      assert e == q * k + (r + 1);
      DivUnique(e, k, q, r + 1);
      assert e != (q + 1) * k;
    }
  }

  lemma EverySecondStep(c: Config, st: State, from: int, count: nat, prev: State)
    requires count > 0 && EverySecond(c, st, from, count - 1) == Success(prev)
    ensures EverySecond(c, st, from, count) == AutoAdvance(c, prev, from + count)
  {
  }

  /** Polling every second from the last re-arm, the slot advances once
      every `cycle` seconds: after `e` seconds it has moved `e / cycle`
      places (modulo the number of slots) and the timer is due at the next
      multiple of `cycle`. */
  lemma {:induction false} CyclesEveryCycleSeconds(c: Config, st: State, from: int, e: nat)
    requires c.cycle > 0 && 0 <= st.active < |c.formats|
    requires st.cycleTime == from + c.cycle
    ensures EverySecond(c, st, from, e) ==
            Success(st.(active := (st.active + e / c.cycle) % |c.formats|,
                        cycleTime := from + (e / c.cycle + 1) * c.cycle))
  {
    var n := |c.formats|;
    var k := c.cycle;
    if e > 0 {
      var q := (e - 1) / k;
      CyclesEveryCycleSeconds(c, st, from, e - 1);
      var prev := st.(active := (st.active + q) % n, cycleTime := from + (q + 1) * k);
      EverySecondStep(c, st, from, e, prev);
      DivStep(e, k);
      if e % k == 0 {
        assert e / k == q + 1;
        assert from + e >= prev.cycleTime;
        assert ((st.active + q) % n + 1) % n == (st.active + q + 1) % n by {
          ModShift(st.active + q, 1, n);
        }
        assert from + e + k == from + (q + 2) * k;
      } else {
        assert e / k == q;
        assert from + e < prev.cycleTime;
      }
    }
  }
}
