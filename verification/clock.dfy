/**
  The clock module itself: `post_config_hook` builds the configuration and
  the initial cycling state, and `clock` (here `Poll`) advances the cycle,
  computes the placeholder values for every zone in the token table and
  works out how long the result may be cached. Rendering those values with
  the host's formatter and strftime is outside the model; a zone's local
  wall-clock time is an input.
 */
module Clock {
  import opened Python
  import opened Settings
  import opened Timezones
  import opened Cycling
  import Braces
  import Strftime

  /** `post_config_hook`, run at time `now`. */
  function PostConfigHook(o: Options, db: TzDatabase, now: int): (r: (Config, State))
    requires db.Consistent()
    ensures r.0.formats == AsList(o.format) && r.0.formatTimes == AsList(o.formatTime)
    ensures |r.0.formats| == 1 ==> r.0.cycle == 0
    ensures |r.0.formats| != 1 ==> r.0.cycle == o.cycle
    ensures r.0.TableComplete()
    ensures forall t :: t in r.0.items <==> Braces.Span(t) in Braces.Scan(Join(r.0.formats))
    ensures forall t :: t in r.0.items ==> '}' !in t && r.0.items[t] == Resolve(db, t)
    ensures r.0.multipleTz <==> |r.0.items| > 1
    ensures |r.0.timeDeltas| == |r.0.formatTimes|
    ensures forall i :: 0 <= i < |r.0.timeDeltas| ==>
              r.0.timeDeltas[i] == Strftime.Granularity(r.0.formatTimes[i])
    ensures r.1 == State(0, 0, now + r.0.cycle)
    ensures r.0.blocks == o.blocks && r.0.blockHours == o.blockHours
    ensures r.0.buttons == Buttons(o.buttonChangeFormat, o.buttonChangeTimeFormat, o.buttonReset)
    ensures r.0.tokens == Braces.Tokens(Join(r.0.formats))
  {
    var formats := AsList(o.format);
    var cycle := if |formats| == 1 then 0 else o.cycle;
    var tokens := Braces.Tokens(Join(formats));
    var items := map t | t in tokens :: Resolve(db, t);
    var formatTimes := AsList(o.formatTime);
    var deltas := seq(|formatTimes|, i requires 0 <= i < |formatTimes| =>
                        Strftime.Granularity(formatTimes[i]));
    Braces.TokensClosed(Join(formats));
    assert forall t :: t in items <==> Braces.Span(t) in Braces.Scan(Join(formats)) by {
      forall t {
        Braces.SpanTextsMembers(Braces.Scan(Join(formats)), t);
      }
    }
    var c := Config(
      o.blocks, o.blockHours,
      Buttons(o.buttonChangeFormat, o.buttonChangeTimeFormat, o.buttonReset),
      cycle, formats, formatTimes, tokens, items, |items| > 1, deltas);
    (c, State(0, 0, now + cycle))
  }

  /** Zone-local wall-clock time. */
  datatype Wall = Wall(hour: int, minute: int)

  /** Which of `count` blocks covers the time of day: the position within
      the `blockHours`-long period, scaled to the number of blocks and
      rounded down. Minutes stand in for `clock.py`'s fractional hours. */
  function IconIndex(hour: int, minute: int, blockHours: int, count: nat): (idx: int)
    requires blockHours != 0
    ensures count > 0 ==> 0 <= idx < count
    ensures count == 0 ==> idx == 0
    ensures blockHours > 0 ==>
              var period := blockHours * 60;
              var pos := FloorMod(hour * 60 + minute, period);
              idx * period <= pos * count < (idx + 1) * period
  {
    var period := blockHours * 60;
    var pos := FloorMod(hour * 60 + minute, period);
    ScaleInRange(pos, count, period);
    FloorDiv(pos * count, period)
  }

  /** A position within a period, scaled to `count` slots and floored,
      names one of the slots, for a period of either sign. */
  lemma ScaleInRange(pos: int, count: nat, period: int)
    requires period != 0
    requires period > 0 ==> 0 <= pos < period
    requires period < 0 ==> period < pos <= 0
    ensures count > 0 ==> 0 <= FloorDiv(pos * count, period) < count
    ensures count == 0 ==> FloorDiv(pos * count, period) == 0
  {
    if count > 0 {
      if period > 0 {
        ScaleBelow(pos, count, period);
      } else {
        assert -(pos * count) == (-pos) * count;
        ScaleBelow(-pos, count, -period);
      }
    }
  }

  lemma ScaleBelow(x: int, count: int, p: int)
    requires 0 <= x < p && count > 0
    ensures 0 <= (x * count) / p < count
  {
    var q := (x * count) / p;
    assert x * count >= 0;
    assert q * p <= x * count;
    assert x * count < p * count by {
      assert (p - x) * count > 0 by { MulPositive(p - x, count); }
    }
    if q >= count {
      assert q * p >= count * p by { MulMonotone(count, q, p); }
    }
  }

  lemma MulPositive(a: int, b: int)
    requires a > 0 && b > 0
    ensures a * b > 0
  {
    MulAtLeast(a, b);
  }

  /** The icon index at `hour:minute` for the default 24 blocks over 12
      hours, from the remainder and quotient the formula takes. */
  lemma DefaultIconAt(hour: int, minute: int, pos: int, idx: int)
    requires 0 <= pos < 720 && hour * 60 + minute == (hour * 60 + minute) / 720 * 720 + pos
    requires 0 <= pos * 24 - idx * 720 < 720
    ensures IconIndex(hour, minute, Defaults.blockHours, |Defaults.blocks|) == idx
  {
    assert Defaults.blockHours == 12 && |Defaults.blocks| == 24;
    DivUnique(hour * 60 + minute, 720, (hour * 60 + minute) / 720, pos);
    DivUnique(pos * 24, 720, idx, pos * 24 - idx * 720);
  }

  /** The default 24 blocks over 12 hours: midnight shows the first glyph,
      six o'clock the 13th, 11:59 the last, and noon starts over. */
  lemma MidnightIcon()
    ensures IconIndex(0, 0, Defaults.blockHours, |Defaults.blocks|) == 0
  {
    DefaultIconAt(0, 0, 0, 0);
  }

  lemma SixOClockIcon()
    ensures IconIndex(6, 0, Defaults.blockHours, |Defaults.blocks|) == 12
  {
    DefaultIconAt(6, 0, 360, 12);
  }

  lemma ElevenFiftyNineIcon()
    ensures IconIndex(11, 59, Defaults.blockHours, |Defaults.blocks|) == 23
  {
    DefaultIconAt(11, 59, 719, 23);
  }

  lemma NoonIcon()
    ensures IconIndex(12, 0, Defaults.blockHours, |Defaults.blocks|) == 0
  {
    DefaultIconAt(12, 0, 0, 0);
  }

  /** `{icon}`: the glyph for the time of day. A zero `block_hours` makes
      the modulo raise; an empty `blocks` makes the indexing raise. */
  function Icon(c: Config, w: Wall): (r: Result<string>)
    ensures r.Failure? <==> c.blockHours == 0 || |c.blocks| == 0
    ensures r.Success? ==>
              r.value == [c.blocks[IconIndex(w.hour, w.minute, c.blockHours, |c.blocks|)]]
  {
    if c.blockHours == 0 then Failure(ZeroDivisionError)
    else
      var glyph :- Index(c.blocks, IconIndex(w.hour, w.minute, c.blockHours, |c.blocks|));
      Success([glyph])
  }

  /** The values handed to the host formatter for one zone. `icon` is only
      computed when the format mentions `{icon}`; `name_` is only given when
      more than one timezone is configured. */
  datatype Values = Values(
    icon: Option<string>,
    name: string,
    nameIfMultiple: Option<string>,
    timezone: string)

  /** What one zone contributes to the output: the `?` marker, or a time
      format together with its placeholder values, still to be formatted
      and passed through strftime. */
  datatype ZoneText = QuestionMark | Formatted(formatTime: string, values: Values)

  function IconIfUsed(c: Config, formatTime: string, w: Wall): Result<Option<string>> {
    if Contains(formatTime, "{icon}") then
      var glyph :- Icon(c, w);
      Success(Some(glyph))
    else Success(None)
  }

  /** One pass of the loop over the token table. A resolved zone reads
      the active time format, which raises IndexError when it is out of
      range; then, only if that format mentions `{icon}`, the icon, which
      raises ZeroDivisionError for a zero `block_hours` and IndexError for
      an empty `blocks`. */
  function RenderZone(c: Config, st: State, zone: Zone, wall: string -> Wall): (r: Result<ZoneText>)
    ensures zone.Unresolved? ==> r == Success(QuestionMark)
    ensures zone.Resolved? ==>
              var active := Index(c.formatTimes, st.activeTimeFormat);
              (r.Success? <==>
                 && active.Success?
                 && (Contains(active.value, "{icon}") ==> c.blockHours != 0 && |c.blocks| > 0))
    ensures zone.Resolved? && r.Failure? ==>
              r.error == (if Index(c.formatTimes, st.activeTimeFormat).Failure? then IndexError
                          else if c.blockHours == 0 then ZeroDivisionError
                          else IndexError)
    ensures zone.Resolved? && r.Success? ==>
              && r.value.Formatted?
              && Index(c.formatTimes, st.activeTimeFormat) == Success(r.value.formatTime)
              && r.value.values.timezone == zone.id
              && r.value.values.name == FriendlyName(zone.id)
              && (r.value.values.nameIfMultiple.Some? <==> c.multipleTz)
              && (c.multipleTz ==> r.value.values.nameIfMultiple.value == r.value.values.name)
              && (r.value.values.icon.Some? <==> Contains(r.value.formatTime, "{icon}"))
              && (r.value.values.icon.Some? ==>
                    Icon(c, wall(zone.id)) == Success(r.value.values.icon.value))
  {
    match zone
    case Unresolved => Success(QuestionMark)
    case Resolved(id) =>
      var formatTime :- Index(c.formatTimes, st.activeTimeFormat);
      var icon :- IconIfUsed(c, formatTime, wall(id));
      var name := FriendlyName(id);
      Success(Formatted(formatTime, Values(icon, name, if c.multipleTz then Some(name) else None, id)))
  }

  /** The loop over the token table, in the order the tokens were found;
      the first zone that raises stops it. */
  function RenderAll(c: Config, st: State, wall: string -> Wall, names: seq<string>)
    : (r: Result<map<string, ZoneText>>)
    requires forall t :: t in names ==> t in c.items
    ensures r.Success? ==> r.value.Keys == set t | t in names
    ensures r.Success? ==>
              forall t :: t in r.value ==> Success(r.value[t]) == RenderZone(c, st, c.items[t], wall)
    ensures (forall t :: t in names ==> RenderZone(c, st, c.items[t], wall).Success?) ==> r.Success?
    decreases |names|
  {
    if |names| == 0 then Success(map[])
    else
      var text :- RenderZone(c, st, c.items[names[0]], wall);
      var rest :- RenderAll(c, st, wall, names[1..]);
      assert forall t :: t in names <==> t == names[0] || t in names[1..];
      Success(rest[names[0] := text])
  }

  /** When the rendered time can next change: the next multiple of the
      granularity, or 0 ("do not cache") for sub-second formats. */
  function Timeout(now: int, g: int): (t: int)
    ensures g == 0 ==> t == 0
    ensures g > 0 ==> now < t <= now + g && t % g == 0
  {
    if g != 0 then
      var t := now + g - FloorMod(now, g);
      if g > 0 then
        assert t == (FloorDiv(now, g) + 1) * g + 0;
        DivUnique(t, g, FloorDiv(now, g) + 1, 0);
        t
      else t
    else 0
  }

  /** No multiple of `g` lies strictly between `now` and the timeout. */
  lemma TimeoutIsNextBoundary(now: int, g: int, m: int)
    requires g > 0 && now < m && m % g == 0
    ensures Timeout(now, g) <= m
  {
    var t := Timeout(now, g);
    var qt := t / g;
    var qm := m / g;
    assert t == qt * g && m == qm * g;
    assert (qt - 1) * g <= now by {
      assert t - g == (qt - 1) * g;
    }
    if qm < qt {
      MulMonotone(qm, qt - 1, g);
    }
    MulMonotone(qt, qm, g);
  }

  /** `cached_until`: the timeout, but no later than the next cycle change
      when cycling. */
  function CachedUntil(c: Config, st: State, now: int, g: int): (t: int)
    ensures c.cycle != 0 ==> t <= st.cycleTime && t <= Timeout(now, g)
    ensures c.cycle != 0 ==> t == st.cycleTime || t == Timeout(now, g)
    ensures c.cycle == 0 ==> t == Timeout(now, g)
  {
    var timeout := Timeout(now, g);
    if c.cycle != 0 then
      if timeout <= st.cycleTime then timeout else st.cycleTime
    else timeout
  }

  /** The module's output before the host formats it: the active slot's
      template, the per-token values, and the caching deadline. */
  datatype Output = Output(slot: string, times: map<string, ZoneText>, cachedUntil: int)

  /** What a poll leaves behind: the cycling state, which keeps the
      automatic advance even when the rest of the poll raises, and the
      output or the fault. */
  datatype Tick = Tick(state: State, output: Result<Output>)

  /** Everything `clock` does after the cycling check, from the state it
      left. */
  function Show(c: Config, st: State, now: int, wall: string -> Wall): Result<Output>
    requires c.TableComplete()
  {
    var times :- RenderAll(c, st, wall, c.tokens);
    var g :- Index(c.timeDeltas, st.activeTimeFormat);
    var slot :- Index(c.formats, st.active);
    Success(Output(slot, times, CachedUntil(c, st, now, g)))
  }

  /** `clock`: one poll at time `now`. The cycling check assigns the new
      slot and timer before anything else can raise, so a fault later in
      the poll leaves them advanced; a fault in the check itself leaves the
      state as it was. */
  function Poll(c: Config, st: State, now: int, wall: string -> Wall): (r: Tick)
    requires c.TableComplete()
    ensures AutoAdvance(c, st, now).Failure? ==>
              r.state == st && r.output == Failure(AutoAdvance(c, st, now).error)
    ensures AutoAdvance(c, st, now).Success? ==> r.state == AutoAdvance(c, st, now).value
    ensures r.output.Success? <==>
              && AutoAdvance(c, st, now).Success?
              && (forall t :: t in c.items ==> RenderZone(c, r.state, c.items[t], wall).Success?)
              && Index(c.timeDeltas, r.state.activeTimeFormat).Success?
              && Index(c.formats, r.state.active).Success?
    ensures r.output.Success? ==> r.output.value.times.Keys == c.items.Keys
    ensures r.output.Success? ==>
              forall t :: t in c.items ==>
                Success(r.output.value.times[t]) == RenderZone(c, r.state, c.items[t], wall)
    ensures r.output.Success? ==>
              forall t :: t in c.items && c.items[t].Unresolved? ==>
                r.output.value.times[t] == QuestionMark
    ensures r.output.Success? ==> Index(c.formats, r.state.active) == Success(r.output.value.slot)
    ensures r.output.Success? ==>
              r.output.value.cachedUntil ==
              CachedUntil(c, r.state, now, Index(c.timeDeltas, r.state.activeTimeFormat).value)
    ensures r.output.Success? && c.cycle != 0 ==> r.output.value.cachedUntil <= r.state.cycleTime
    ensures r.output.Success? && 0 <= r.state.activeTimeFormat < |c.timeDeltas| ==>
              var g := c.timeDeltas[r.state.activeTimeFormat];
              && (g > 0 && c.cycle == 0 ==>
                    now < r.output.value.cachedUntil <= now + g && r.output.value.cachedUntil % g == 0)
              && (g == 0 && c.cycle == 0 ==> r.output.value.cachedUntil == 0)
  {
    match AutoAdvance(c, st, now)
    case Failure(e) => Tick(st, Failure(e))
    case Success(next) => Tick(next, Show(c, next, now, wall))
  }

  /** A configuration built by `post_config_hook` starts in range, and it
      can be polled without raising when both lists are non-empty and the
      icon settings are usable. */
  lemma SetupPollable(o: Options, db: TzDatabase, now: int)
    requires db.Consistent()
    requires |AsList(o.format)| > 0 && |AsList(o.formatTime)| > 0
    requires o.blockHours != 0 && |o.blocks| > 0
    ensures PostConfigHook(o, db, now).0.Pollable()
    ensures InRange(PostConfigHook(o, db, now).0, PostConfigHook(o, db, now).1)
  {
  }

  /** Polling a pollable configuration never raises and keeps both indices
      in range. */
  lemma PollKeepsInRange(c: Config, st: State, now: int, wall: string -> Wall)
    requires c.Pollable() && InRange(c, st)
    ensures Poll(c, st, now, wall).output.Success?
    ensures InRange(c, Poll(c, st, now, wall).state)
  {
    AdvanceKeepsInRange(c, st, now);
    var next := AutoAdvance(c, st, now).value;
    forall t | t in c.items
      ensures RenderZone(c, next, c.items[t], wall).Success?
    {
    }
  }

  /** A poll that raises while rendering still keeps its slot change: with
      cycling due and `block_hours` zero, a resolved zone under an `{icon}`
      format raises ZeroDivisionError, yet the slot has moved on and the
      timer is re-armed, so the next poll does not advance again. */
  lemma RaiseKeepsAdvance(c: Config, st: State, now: int, wall: string -> Wall, t: string)
    requires c.TableComplete() && InRange(c, st)
    requires c.cycle != 0 && now >= st.cycleTime
    requires c.blockHours == 0 && c.formatTimes == ["{icon}"]
    requires t in c.items && c.items[t].Resolved?
    ensures Poll(c, st, now, wall).output == Failure(ZeroDivisionError)
    ensures Poll(c, st, now, wall).state ==
            st.(active := (st.active + 1) % |c.formats|, cycleTime := now + c.cycle)
    ensures var after := Poll(c, st, now, wall).state;
            forall later :: later < now + c.cycle ==> Poll(c, after, later, wall).state == after
  {
    var next := AutoAdvance(c, st, now).value;
    assert Contains("{icon}", "{icon}") by {
      assert "{icon}"[..|"{icon}"|] == "{icon}";
    }
    forall u | u in c.tokens
      ensures RenderZone(c, next, c.items[u], wall).Success? ||
              RenderZone(c, next, c.items[u], wall) == Failure(ZeroDivisionError)
    {
    }
    RenderAllRaises(c, next, wall, c.tokens, t);
  }

  /** The loop stops at the first zone that raises; if every zone that
      raises raises ZeroDivisionError and one does, so does the loop. */
  lemma {:induction false} RenderAllRaises(c: Config, st: State, wall: string -> Wall,
                                           names: seq<string>, t: string)
    requires forall u :: u in names ==> u in c.items
    requires forall u :: u in names ==>
               RenderZone(c, st, c.items[u], wall).Success? ||
               RenderZone(c, st, c.items[u], wall) == Failure(ZeroDivisionError)
    requires t in names && RenderZone(c, st, c.items[t], wall).Failure?
    ensures RenderAll(c, st, wall, names) == Failure(ZeroDivisionError)
    decreases |names|
  {
    if names[0] != t {
      assert t in names[1..];
      RenderAllRaises(c, st, wall, names[1..], t);
    }
  }

  /** With a single slot `post_config_hook` switches cycling off, so no
      poll ever changes the cycling state, whether it raises or not. */
  lemma SingleSlotNeverCycles(o: Options, db: TzDatabase, now: int, later: int,
                              wall: string -> Wall)
    requires db.Consistent() && |AsList(o.format)| == 1
    ensures var (c, st) := PostConfigHook(o, db, now);
            c.cycle == 0 && Poll(c, st, later, wall).state == st
  {
  }

  /** Slots are joined with nothing between them, so a token may start in
      one slot and end in the next: `["{Europe/", "London}"]` holds the
      single token `Europe/London`. */
  lemma TokenAcrossSlots(o: Options, db: TzDatabase, now: int, a: string, b: string)
    requires db.Consistent() && o.format == Texts(["{" + a, b + "}"]) && '}' !in a + b
    ensures PostConfigHook(o, db, now).0.items.Keys == {a + b}
    ensures !PostConfigHook(o, db, now).0.multipleTz
  {
    var c := PostConfigHook(o, db, now).0;
    TwoSlotTokens(a, b);
    assert c.tokens == [a + b];
  }

  /** The two slots `{a` and `b}` join into the one token `a + b`. */
  lemma TwoSlotTokens(a: string, b: string)
    requires '}' !in a + b
    ensures Braces.Tokens(Join(["{" + a, b + "}"])) == [a + b]
  {
    var formats := ["{" + a, b + "}"];
    assert Join(formats) == "{" + (a + b) + "}" + "" by {
      assert formats[1..] == [b + "}"];
      assert Join(formats[1..]) == b + "}";
    }
    Braces.StripSpan(a + b, "");
    assert Braces.Tokens("") == [];
  }

  /** A time format behind the default `[{name_}` prefix refreshes as its
      remaining directives ask: the prefix itself holds none. */
  lemma NamePrefixGranularity(f: string, rest: string)
    requires f == "[{name_}" + rest && '}' !in rest
    ensures Strftime.Granularity(f) == Strftime.ByDirectives(Strftime.Directives(rest))
  {
    NamePrefixStrip(rest);
    Strftime.GranularityByDirectives(f);
    Strftime.DirectivesOther('[', rest);
  }

  /** The directives of ` ]%c`. The string is passed in as a parameter
      rather than written inside the lemma: a string literal in a proof
      obligation lets the verifier unfold `Directives` on it without bound. */
  lemma DateTimeDirectives(rest: string)
    requires rest == " ]%c"
    ensures Strftime.Directives(rest) == {'c'}
  {
    assert rest == [' '] + ([']'] + (['%', 'c'] + ""));
    Strftime.DirectivesOther(' ', [']'] + (['%', 'c'] + ""));
    Strftime.DirectivesOther(']', ['%', 'c'] + "");
    Strftime.DirectivesPercent('c', "");
  }

  /** The first default time format, the locale's date and time, refreshes
      every second. */
  lemma DefaultDateTimeGranularity()
    ensures Strftime.Granularity(DefaultFormatTimes[0]) == 1
  {
    DateTimeDirectives(" ]%c");
    NamePrefixGranularity(DefaultFormatTimes[0], " ]%c");
  }

  /** Blanking the `{name_}` span out of the default prefix. */
  lemma NamePrefixStrip(rest: string)
    requires '}' !in rest
    ensures Braces.Strip("[{name_}" + rest) == "[" + rest
  {
    var s := "[{name_}" + rest;
    assert s == ['['] + ("{" + "name_" + "}" + rest);
    Braces.StripPlain('[', "{" + "name_" + "}" + rest);
    Braces.StripSpan("name_", rest);
    Braces.NoCloseNoSpans(rest);
  }
}
